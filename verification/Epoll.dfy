/** The registry of the epoll wrapper: handlers by descriptor, and the list of registered ones. */
module Epoll {

  /** `fdStatus` lists the registered descriptors in order of registration (the tags that the
      program keeps beside them are only printed). */
  datatype Registry<H> = Registry(handlers: map<int, H>, fdStatus: seq<int>)

  predicate Unique(s: seq<int>) {
    forall i, j | 0 <= i < j < |s| :: s[i] != s[j]
  }

  /** One list entry per handler and no other. */
  ghost predicate Consistent<H>(reg: Registry<H>) {
    Unique(reg.fdStatus) && forall fd :: fd in reg.fdStatus <==> fd in reg.handlers
  }

  /** handlers.insert keeps an existing handler; the list grows in any case. */
  function Register<H>(reg: Registry<H>, fd: int, h: H): Registry<H> {
    Registry(if fd in reg.handlers then reg.handlers else reg.handlers[fd := h], reg.fdStatus + [fd])
  }

  /** The list without the first occurrence of `fd`. */
  function Without(s: seq<int>, fd: int): (t: seq<int>)
    ensures forall x | x != fd :: x in t <==> x in s
  {
    if s == [] then []
    else if s[0] == fd then s[1..]
    else
      assert forall x :: x in s <==> x == s[0] || x in s[1..];
      [s[0]] + Without(s[1..], fd)
  }

  /** remove_socket: only a listed descriptor is removed, and only one entry of it. */
  function Unregister<H>(reg: Registry<H>, fd: int): Registry<H> {
    if fd in reg.fdStatus then Registry(reg.handlers - {fd}, Without(reg.fdStatus, fd)) else reg
  }

  lemma {:induction false} WithoutUnique(s: seq<int>, fd: int)
    requires Unique(s)
    ensures Unique(Without(s, fd)) && fd !in Without(s, fd)
  {
    if s != [] {
      if s[0] == fd {
        assert Without(s, fd) == s[1..];
      } else {
        WithoutUnique(s[1..], fd);
        assert s[0] !in s[1..];
        assert s[0] !in Without(s[1..], fd);
      }
    }
  }

  lemma {:induction false} WithoutAt(s: seq<int>, fd: int, i: nat)
    requires i < |s| && s[i] == fd && fd !in s[..i]
    ensures Without(s, fd) == s[..i] + s[i + 1..]
  {
    if i == 0 {
      assert s[..0] + s[1..] == s[1..];
    } else {
      assert s[0] == s[..i][0];
      assert s[1..][..i - 1] == s[..i][1..];
      WithoutAt(s[1..], fd, i - 1);
      assert s[..i] + s[i + 1..] == [s[0]] + (s[1..][..i - 1] + s[1..][i..]);
    }
  }

  lemma UnregisterConsistent<H>(reg: Registry<H>, fd: int)
    requires Consistent(reg)
    ensures Consistent(Unregister(reg, fd))
    ensures Unregister(reg, fd).handlers == reg.handlers - {fd}
  {
    if fd in reg.fdStatus {
      WithoutUnique(reg.fdStatus, fd);
    } else {
      assert reg.handlers - {fd} == reg.handlers;
    }
  }

  lemma RegisterConsistent<H>(reg: Registry<H>, fd: int, h: H)
    requires Consistent(reg) && fd !in reg.handlers
    ensures Consistent(Register(reg, fd, h))
    ensures Register(reg, fd, h).handlers == reg.handlers[fd := h]
  {
  }

  /** The dispatcher removes a descriptor a second time after its disconnect handler has run: that
      changes nothing exactly when the list held the descriptor at most once. */
  lemma RemoveTwice<H>(reg: Registry<H>, fd: int)
    ensures Unregister(Unregister(reg, fd), fd) == Unregister(reg, fd)
       <==> (forall i, j | 0 <= i < j < |reg.fdStatus| :: !(reg.fdStatus[i] == fd && reg.fdStatus[j] == fd))
  {
    var s := reg.fdStatus;
    if fd in s {
      var i := FirstIndex(s, fd);
      WithoutAt(s, fd, i);
      var t := Without(s, fd);
      if fd in t {
        assert forall m | 0 <= m < i :: t[m] == s[..i][m];
        var k :| i <= k < |t| && t[k] == fd;
        assert s[k + 1] == fd;
        WithoutShorter(t, fd);
      } else {
        forall k | i < k < |s| ensures s[k] != fd {
          assert t[k - 1] == s[k];
        }
        forall k | 0 <= k < i ensures s[k] != fd {
          assert s[k] == s[..i][k];
        }
      }
    }
  }

  lemma {:induction false} WithoutShorter(s: seq<int>, fd: int)
    requires fd in s
    ensures |Without(s, fd)| == |s| - 1
  {
    if s[0] != fd {
      WithoutShorter(s[1..], fd);
    }
  }

  lemma {:induction false} FirstIndex(s: seq<int>, fd: int) returns (i: nat)
    requires fd in s
    ensures i < |s| && s[i] == fd && fd !in s[..i]
  {
    if s[0] == fd {
      i := 0;
    } else {
      var k := FirstIndex(s[1..], fd);
      i := k + 1;
      assert s[..i] == [s[0]] + s[1..][..k];
    }
  }

  /** The wrapper itself, updating its map and its list in place. */
  class EpollWrapper<H> {
    var handlers: map<int, H>
    var fdStatus: seq<int>

    function State(): Registry<H>
      reads this
    {
      Registry(handlers, fdStatus)
    }

    constructor ()
      ensures State() == Registry(map[], [])
    {
      handlers, fdStatus := map[], [];
    }

    method AddSocket(fd: int, handler: H)
      modifies this
      ensures State() == Register(old(State()), fd, handler)
      ensures handlers == if fd in old(handlers) then old(handlers) else old(handlers)[fd := handler]
      ensures fdStatus == old(fdStatus) + [fd]
    {
      if fd !in handlers {
        handlers := handlers[fd := handler];
      }
      fdStatus := fdStatus + [fd];
    }

    /** Looks the descriptor up in the list; when it is there, drops its handler and looks it up
        again to erase the entry. */
    method RemoveSocket(fd: int)
      modifies this
      ensures State() == Unregister(old(State()), fd)
      ensures fd !in old(fdStatus) ==> handlers == old(handlers) && fdStatus == old(fdStatus)
      ensures forall i | 0 <= i < |old(fdStatus)| && old(fdStatus)[i] == fd && fd !in old(fdStatus)[..i] ::
                handlers == old(handlers) - {fd} && fdStatus == old(fdStatus)[..i] + old(fdStatus)[i + 1..]
    {
      for i := 0 to |fdStatus|
        invariant fdStatus == old(fdStatus) && handlers == old(handlers)
        invariant fd !in fdStatus[..i]
      {
        if fdStatus[i] == fd {
          handlers := handlers - {fd};
          for k := 0 to |fdStatus|
            invariant fdStatus == old(fdStatus) && handlers == old(handlers) - {fd}
            invariant fd !in fdStatus[..k]
            invariant k <= i
          {
            if fdStatus[k] == fd {
              WithoutAt(fdStatus, fd, k);
              fdStatus := fdStatus[..k] + fdStatus[k + 1..];
              return;
            }
          }
        }
      }
    }
  }
}
