/** Ownership of a socket descriptor by an `xxsocket`: the object holds one
    handle in `fd`, `bad_sock` when it holds none. Opening asks the kernel
    for a handle only when none is held, closing hands the held one back,
    and moving a handle between two objects never loses or duplicates one. */
module Sockets {

  /** `bad_sock`: the value of no socket (`INVALID_SOCKET` is `-1`). */
  const BadSock: int := -1

  /** The kernel as the handle methods see it. What `::socket` answers is
      not known to the program, so the answers are a script given up front
      and consumed one per call; an empty script answers `bad_sock`. Each
      request and each handle passed to `::closesocket` is recorded. */
  class Kernel {
    var answers: seq<int>
    var requests: seq<(int, int, int)>
    var closed: seq<int>

    constructor (answers: seq<int>)
      ensures this.answers == answers && requests == [] && closed == []
    {
      this.answers := answers;
      requests := [];
      closed := [];
    }

    /** The handle the next `::socket` call returns. */
    function NextAnswer(): int
      reads this
    {
      if answers == [] then BadSock else answers[0]
    }

    /** `::socket(af, type, protocol)`. */
    method Socket(af: int, kind: int, protocol: int) returns (h: int)
      modifies this
      ensures h == old(NextAnswer())
      ensures answers == if old(answers) == [] then [] else old(answers)[1..]
      ensures requests == old(requests) + [(af, kind, protocol)]
      ensures closed == old(closed)
    {
      h := NextAnswer();
      if answers != [] {
        answers := answers[1..];
      }
      requests := requests + [(af, kind, protocol)];
    }

    /** `::closesocket(h)`. */
    method CloseSocket(h: int)
      modifies this
      ensures closed == old(closed) + [h]
      ensures answers == old(answers) && requests == old(requests)
    {
      closed := closed + [h];
    }
  }

  /** The handles two objects hold between them. */
  function Held(mine: int, theirs: int): multiset<int> {
    (if mine == BadSock then multiset{} else multiset{mine}) +
    (if theirs == BadSock then multiset{} else multiset{theirs})
  }

  /** The handles of `this` and `who` after `swap`: a closed object takes
      the other's handle and leaves it closed; an open one keeps its own and
      leaves the other's alone, so that no handle goes missing. */
  function Swapped(mine: int, theirs: int): (r: (int, int))
    ensures Held(r.0, r.1) == Held(mine, theirs)
    ensures mine == BadSock ==> r.1 == BadSock
    ensures mine != BadSock ==> r.0 == mine && r.1 == theirs
  {
    if mine == BadSock then (theirs, BadSock) else (mine, theirs)
  }

  /** Swapping a second time changes nothing more: once `this` holds the
      handle, the other object is closed and `this` is open or both are
      closed. */
  lemma {:induction false} SwapSettles(mine: int, theirs: int)
    ensures var r := Swapped(mine, theirs); Swapped(r.0, r.1) == r
  {
  }

  /** An `xxsocket`, reduced to the descriptor it owns. */
  class Socket {
    var fd: int

    /** `xxsocket(void)`: holds no handle. */
    constructor ()
      ensures fd == BadSock
    {
      fd := BadSock;
    }

    /** `xxsocket(socket_native_type h)`: adopts `h`. */
    constructor FromHandle(h: int)
      ensures fd == h
    {
      fd := h;
    }

    /** `xxsocket(xxsocket&& right)`: starts closed and swaps, so it takes
        `right`'s handle and leaves `right` closed. */
    constructor Move(right: Socket)
      modifies right
      ensures fd == old(right.fd) && right.fd == BadSock
    {
      fd := BadSock;
      new;
      Swap(right);
    }

    /** `xxsocket(int af, int type, int protocol)`: starts closed and opens. */
    constructor Opening(k: Kernel, af: int, kind: int, protocol: int)
      modifies k
      ensures fd == old(k.NextAnswer())
      ensures k.answers == (if old(k.answers) == [] then [] else old(k.answers)[1..])
      ensures k.requests == old(k.requests) + [(af, kind, protocol)] && k.closed == old(k.closed)
    {
      fd := BadSock;
      new;
      var _ := Open(k, af, kind, protocol);
    }

    /** `is_open`: whether the object holds a handle. */
    predicate IsOpen(): (b: bool)
      reads this
      ensures b <==> Held(fd, BadSock) != multiset{}
    {
      fd != BadSock
    }

    /** `open`: asks the kernel for a handle only when none is held, and
        reports whether one is held afterwards. */
    method Open(k: Kernel, af: int, kind: int, protocol: int) returns (ok: bool)
      modifies this, k
      ensures old(fd) == BadSock ==>
        && fd == old(k.NextAnswer())
        && k.answers == (if old(k.answers) == [] then [] else old(k.answers)[1..])
        && k.requests == old(k.requests) + [(af, kind, protocol)]
      ensures old(fd) != BadSock ==>
        fd == old(fd) && k.answers == old(k.answers) && k.requests == old(k.requests)
      ensures k.closed == old(k.closed)
      ensures ok <==> IsOpen()
    {
      if BadSock == fd {
        fd := k.Socket(af, kind, protocol);
      }
      ok := IsOpen();
    }

    /** `close`: hands a held handle to `::closesocket` and is closed
        afterwards; closing a closed object does nothing. */
    method Close(k: Kernel)
      modifies this, k
      ensures fd == BadSock
      ensures k.closed == old(k.closed) + (if old(fd) != BadSock then [old(fd)] else [])
      ensures k.answers == old(k.answers) && k.requests == old(k.requests)
    {
      if IsOpen() {
        k.CloseSocket(fd);
        fd := BadSock;
      }
    }

    /** `reopen`: `close`, then `open`, so it always asks the kernel for a
        fresh handle. */
    method Reopen(k: Kernel, af: int, kind: int, protocol: int) returns (ok: bool)
      modifies this, k
      ensures fd == old(k.NextAnswer())
      ensures k.closed == old(k.closed) + (if old(fd) != BadSock then [old(fd)] else [])
      ensures k.answers == (if old(k.answers) == [] then [] else old(k.answers)[1..])
      ensures k.requests == old(k.requests) + [(af, kind, protocol)]
      ensures ok <==> IsOpen()
    {
      Close(k);
      ok := Open(k, af, kind, protocol);
    }

    /** `swap`: a closed object takes `who`'s handle and closes `who`; an
        open one leaves both unchanged. `who` may be this object itself. */
    method Swap(who: Socket)
      modifies this, who
      ensures (fd, who.fd) == Swapped(old(fd), old(who.fd))
    {
      if !IsOpen() {
        fd := who.fd;
        who.fd := BadSock;
      }
    }

    /** `operator=(xxsocket&& right)`: the same as `swap`. */
    method MoveAssign(right: Socket)
      modifies this, right
      ensures (fd, right.fd) == Swapped(old(fd), old(right.fd))
      ensures Held(fd, right.fd) == old(Held(fd, right.fd))
    {
      Swap(right);
    }

    /** `operator=(socket_native_type handle)`: adopts `handle` only when
        closed; an open object keeps its handle. */
    method AssignHandle(handle: int)
      modifies this
      ensures old(fd) == BadSock ==> fd == handle
      ensures old(fd) != BadSock ==> fd == old(fd)
    {
      if !IsOpen() {
        fd := handle;
      }
    }

    /** `release`: gives up the handle without closing it. */
    method Release() returns (h: int)
      modifies this
      ensures h == old(fd) && fd == BadSock
    {
      h := fd;
      fd := BadSock;
    }
  }
}
