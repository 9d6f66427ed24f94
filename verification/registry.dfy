/**
 * The daemon's list of connected peer sockets (`state->conns`): a singly
 * linked list of file descriptors kept in the order they were accepted.
 * Each operation runs under the registry semaphore, so it is atomic here.
 */
module Registry {

  /** Index of the first occurrence of `fd` in `conns`. */
  function Position(conns: seq<int>, fd: int): (p: nat)
    requires fd in conns
    ensures p < |conns| && conns[p] == fd && fd !in conns[..p]
  {
    if conns[0] == fd then 0
    else
      var p := 1 + Position(conns[1..], fd);
      assert conns[..p] == [conns[0]] + conns[1..][..p - 1];
      p
  }

  /** No descriptor appears twice. */
  predicate Distinct(conns: seq<int>) {
    forall i, j :: 0 <= i < j < |conns| ==> conns[i] != conns[j]
  }

  /** `state_add_socket_fd`: the new connection is linked in after the last node. */
  function Add(conns: seq<int>, fd: int): (r: seq<int>)
    ensures |r| == |conns| + 1 && r[..|conns|] == conns && r[|conns|] == fd
  {
    conns + [fd]
  }

  /**
   * `state_remove_socket_fd`: unlinks the first node holding `fd`; a list
   * without `fd` (the empty list included) is left alone.
   */
  function Remove(conns: seq<int>, fd: int): (r: seq<int>)
    ensures fd !in conns ==> r == conns
    ensures fd in conns ==> |r| == |conns| - 1
  {
    if |conns| == 0 then conns
    else if conns[0] == fd then conns[1..]
    else [conns[0]] + Remove(conns[1..], fd)
  }

  /** Removal takes away one occurrence of `fd`, if there is one, and changes no other count. */
  lemma {:induction false} RemoveCounts(conns: seq<int>, fd: int)
    ensures multiset(Remove(conns, fd)) == multiset(conns) - multiset{fd}
  {
    if |conns| > 0 {
      assert conns == [conns[0]] + conns[1..];
      if conns[0] != fd {
        RemoveCounts(conns[1..], fd);
      }
    }
  }

  /** Cutting position p + 1 out of a list is cutting position p out of its tail, behind the head. */
  lemma SpliceCons(conns: seq<int>, p: nat)
    requires p + 1 < |conns|
    ensures conns[..p + 1] + conns[p + 2..] == [conns[0]] + (conns[1..][..p] + conns[1..][p + 1..])
  {
    assert conns[..p + 1] == [conns[0]] + conns[1..][..p];
    assert conns[p + 2..] == conns[1..][p + 1..];
  }

  /** The removal cuts out exactly the first occurrence and keeps the rest in order. */
  lemma {:induction false} RemoveFirstMatch(conns: seq<int>, fd: int)
    requires fd in conns
    ensures Remove(conns, fd) == conns[..Position(conns, fd)] + conns[Position(conns, fd) + 1..]
  {
    if conns[0] != fd {
      var tail := conns[1..];
      assert conns == [conns[0]] + tail;
      assert fd in tail;
      var p := Position(tail, fd);
      assert Remove(conns, fd) == [conns[0]] + Remove(tail, fd);
      assert Remove(tail, fd) == tail[..p] + tail[p + 1..] by {
        RemoveFirstMatch(tail, fd);
      }
      SpliceCons(conns, p);
      assert Position(conns, fd) == p + 1;
    }
  }

  /**
   * The unlinking walk as the C code performs it: test the head, then look
   * one node ahead of a cursor until the match or the tail.
   */
  method RemoveSocketFd(conns: seq<int>, fd: int) returns (r: seq<int>)
    ensures fd !in conns ==> r == conns
    ensures fd in conns ==> r == conns[..Position(conns, fd)] + conns[Position(conns, fd) + 1..]
    ensures r == Remove(conns, fd)
  {
    if fd in conns {
      RemoveFirstMatch(conns, fd);
    }
    if |conns| == 0 {
      return conns;
    }
    if conns[0] == fd {
      return conns[1..];
    }
    var i := 0;
    while i + 1 < |conns|
      invariant 0 <= i < |conns|
      invariant fd !in conns[..i + 1]
    {
      if conns[i + 1] == fd {
        assert Position(conns, fd) == i + 1;
        return conns[..i + 1] + conns[i + 2..];
      }
      i := i + 1;
    }
    assert conns[..i + 1] == conns;
    return conns;
  }

  /** Adding a descriptor that is not yet registered keeps the list free of duplicates. */
  lemma AddKeepsDistinct(conns: seq<int>, fd: int)
    requires Distinct(conns) && fd !in conns
    ensures Distinct(Add(conns, fd))
  {
  }

  /** Dropping one position keeps a duplicate-free list duplicate-free and loses the dropped element. */
  lemma DropAt(conns: seq<int>, p: nat)
    requires Distinct(conns) && p < |conns|
    ensures Distinct(conns[..p] + conns[p + 1..])
    ensures conns[p] !in conns[..p] + conns[p + 1..]
  {
    var r := conns[..p] + conns[p + 1..];
    forall k | 0 <= k < |r|
      ensures r[k] == conns[if k < p then k else k + 1]
    {
    }
  }

  /** Removing keeps the list free of duplicates, and then `fd` is gone from it. */
  lemma RemoveKeepsDistinct(conns: seq<int>, fd: int)
    requires Distinct(conns)
    ensures Distinct(Remove(conns, fd))
    ensures fd !in Remove(conns, fd)
  {
    if fd in conns {
      RemoveFirstMatch(conns, fd);
      DropAt(conns, Position(conns, fd));
    }
  }

  /** Undo: removing what was just added to a list that lacked it restores the list. */
  lemma RemoveUndoesAdd(conns: seq<int>, fd: int)
    requires fd !in conns
    ensures Remove(Add(conns, fd), fd) == conns
  {
    var a := Add(conns, fd);
    assert Position(a, fd) == |conns|;
    assert a[..|conns|] == conns;
    RemoveFirstMatch(a, fd);
  }

  /** Idempotence: removing a descriptor registered at most once a second time changes nothing. */
  lemma RemoveTwice(conns: seq<int>, fd: int)
    requires multiset(conns)[fd] <= 1
    ensures Remove(Remove(conns, fd), fd) == Remove(conns, fd)
  {
    var r := Remove(conns, fd);
    RemoveCounts(conns, fd);
    assert multiset(r)[fd] == 0;
  }

  /** Removal touches no other descriptor: every other entry keeps its count. */
  lemma RemoveSparesOthers(conns: seq<int>, fd: int, other: int)
    requires other != fd
    ensures multiset(Remove(conns, fd))[other] == multiset(conns)[other]
    ensures other in Remove(conns, fd) <==> other in conns
  {
    RemoveCounts(conns, fd);
  }
}
