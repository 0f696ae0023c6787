/**
 * `FileWrapper`, the move-only owner of one file descriptor
 * (modern-cpp/src/final.cpp, declared in modern-cpp/src/final.hpp).
 *
 * A wrapper holds a descriptor number or `NoFd`, the sentinel for "owns
 * nothing". Moving a wrapper hands its descriptor to the destination and
 * blanks the source, and the destructor closes only a descriptor it holds.
 * There is no copy operation, as the C++ class deletes both copy members.
 *
 * Ownership is stated over `live`, the ghost set of wrappers that have been
 * constructed and not yet destroyed:
 *   - `Owned`: every descriptor a live wrapper holds is open, and no two live
 *     wrappers hold the same one;
 *   - `NoLeak`: every open descriptor is held by some live wrapper;
 *   - `ClosedOnce`: no descriptor has been the subject of two `close` calls,
 *     and none that was closed is open again.
 */
module FileDescriptors {
  import opened Posix

  /** How much `read_1024` asks for, and the size of its buffer. */
  const ReadSize := 1024

  ghost predicate Distinct(s: seq<int>)
  {
    forall i, j :: 0 <= i < j < |s| ==> s[i] != s[j]
  }

  ghost predicate ClosedOnce(os: Os)
    reads os
  {
    Distinct(os.closeLog) &&
    forall i :: 0 <= i < |os.closeLog| ==> 0 <= os.closeLog[i] < os.next && os.closeLog[i] !in os.table
  }

  ghost predicate Owned(os: Os, live: set<FileWrapper>)
    reads os, live
  {
    (forall w :: w in live && w.fd >= 0 ==> w.fd in os.table) &&
    (forall v, w :: v in live && w in live && v != w && v.fd >= 0 ==> v.fd != w.fd)
  }

  ghost predicate NoLeak(os: Os, live: set<FileWrapper>)
    reads os, live
  {
    forall d :: d in os.table ==> exists w :: w in live && w.fd == d
  }

  class FileWrapper {
    var fd: int

    /** `FileWrapper(path)`: holds whatever `open` returned, a fresh open
        descriptor or `NoFd`. */
    constructor (os: Os, path: string, ghost live: set<FileWrapper>)
      requires os.Valid() && Owned(os, live) && ClosedOnce(os)
      modifies os
      ensures os.Valid() && Owned(os, live + {this}) && ClosedOnce(os)
      ensures old(NoLeak(os, live)) ==> NoLeak(os, live + {this})
      ensures os.files == old(os.files) && os.closeLog == old(os.closeLog)
      ensures path in old(os.files) ==>
        fd == old(os.next) && os.table == old(os.table)[fd := old(os.files)[path]]
      ensures path !in old(os.files) ==> fd == NoFd && os.table == old(os.table)
    {
      var d := os.Open(path);
      fd := d;
      new;
      assert forall w :: w in live ==> w != this;
    }

    /** The move constructor: takes over the source's descriptor and blanks the
        source, so that only one of the two will ever close it. */
    constructor Move(src: FileWrapper, ghost os: Os, ghost live: set<FileWrapper>)
      requires src in live && Owned(os, live)
      modifies src
      ensures fd == old(src.fd) && src.fd == NoFd
      ensures Owned(os, live + {this})
      ensures old(NoLeak(os, live)) ==> NoLeak(os, live + {this})
    {
      fd := src.fd;
      new;
      src.fd := NoFd;
    }

    /** The destructor: closes the descriptor only when it holds one, and that
        close always finds the descriptor open. */
    method Destroy(os: Os, ghost live: set<FileWrapper>)
      requires os.Valid() && this in live && Owned(os, live) && ClosedOnce(os)
      modifies os
      ensures os.Valid() && Owned(os, live - {this}) && ClosedOnce(os)
      ensures old(NoLeak(os, live)) ==> NoLeak(os, live - {this})
      ensures os.files == old(os.files) && os.next == old(os.next)
      ensures fd >= 0 ==> os.closeLog == old(os.closeLog) + [fd] && os.table == old(os.table) - {fd}
      ensures fd < 0 ==> os.closeLog == old(os.closeLog) && os.table == old(os.table)
    {
      if fd >= 0 {
        var r := os.Close(fd);
        assert r == 0;
      }
    }

    /** Move assignment as written: takes the source's descriptor and blanks the
        source, without closing the descriptor the target held before. A self
        move therefore leaves the wrapper owning nothing. */
    method MoveAssign(src: FileWrapper, ghost os: Os, ghost live: set<FileWrapper>)
      requires this in live && src in live && Owned(os, live)
      modifies this, src
      ensures src.fd == NoFd
      ensures this != src ==> fd == old(src.fd)
      ensures Owned(os, live)
    {
      this.fd := src.fd;
      src.fd := NoFd;
    }

    /** Move assignment that releases what the target held first and leaves a
        self move alone, so no open descriptor is left without an owner. */
    method MoveAssignReleasing(src: FileWrapper, os: Os, ghost live: set<FileWrapper>)
      requires os.Valid() && this in live && src in live && Owned(os, live) && ClosedOnce(os)
      modifies this, src, os
      ensures os.Valid() && Owned(os, live) && ClosedOnce(os)
      ensures old(NoLeak(os, live)) ==> NoLeak(os, live)
      ensures os.files == old(os.files) && os.next == old(os.next)
      ensures this == src ==> fd == old(fd) && os.closeLog == old(os.closeLog)
      ensures this != src ==> fd == old(src.fd) && src.fd == NoFd
      ensures this != src ==>
        os.closeLog == old(os.closeLog) + (if old(fd) >= 0 then [old(fd)] else [])
    {
      if this != src {
        if fd >= 0 {
          var r := os.Close(fd);
          assert r == 0;
        }
        fd := src.fd;
        src.fd := NoFd;
      }
    }

    /** `read_1024`: the empty string for a wrapper that owns nothing or when
        `read` yields no bytes, otherwise the bytes `read` returned: a prefix
        of the unread rest of the file, never more than 1024 of them. */
    method Read1024(os: Os) returns (r: string)
      requires os.Valid()
      modifies os
      ensures os.Valid()
      ensures os.files == old(os.files) && os.next == old(os.next) && os.closeLog == old(os.closeLog)
      ensures |r| <= ReadSize
      ensures fd < 0 ==> r == "" && os.table == old(os.table)
      ensures fd !in old(os.table) ==> r == "" && os.table == old(os.table)
      ensures fd in old(os.table) ==>
        |r| <= |old(os.table)[fd]| && r == old(os.table)[fd][..|r|] &&
        os.table == old(os.table)[fd := old(os.table)[fd][|r|..]]
    {
      if fd < 0 {
        return "";
      }
      var buf := seq(ReadSize, _ => '\0');
      var n, data := os.Read(fd, ReadSize);
      if n <= 0 {
        return "";
      }
      buf := data + buf[n..];
      r := buf[..n];
    }
  }

  lemma {:induction false} DistinctOnce(s: seq<int>, x: int)
    requires Distinct(s) && x in s
    ensures multiset(s)[x] == 1
  {
    assert s == [s[0]] + s[1..];
    if s[0] == x {
      assert x !in s[1..];
    } else {
      DistinctOnce(s[1..], x);
    }
  }

  /** Once no wrapper is live, every descriptor ever opened has been closed,
      and closed exactly once. */
  lemma AllClosedOnceWhenNoneLive(os: Os)
    requires os.Valid() && ClosedOnce(os) && NoLeak(os, {})
    ensures os.table == map[]
    ensures forall d :: 0 <= d < os.next ==> multiset(os.closeLog)[d] == 1
  {
    assert forall d :: d !in os.table;
    forall d | 0 <= d < os.next
      ensures multiset(os.closeLog)[d] == 1
    {
      DistinctOnce(os.closeLog, d);
    }
  }

  /** A wrapper, moved twice, then all three destroyed in reverse order: the
      two moved-from wrappers close nothing and the descriptor is closed once. */
  method MoveChain(os: Os, path: string) returns (fd: int)
    requires os.Valid() && ClosedOnce(os) && os.table == map[]
    modifies os
    ensures os.Valid() && ClosedOnce(os) && os.table == map[]
    ensures path in old(os.files) ==> fd == old(os.next) && os.closeLog == old(os.closeLog) + [fd]
    ensures path !in old(os.files) ==> fd == NoFd && os.closeLog == old(os.closeLog)
  {
    assert NoLeak(os, {});
    var a := new FileWrapper(os, path, {});
    fd := a.fd;
    assert {} + {a} == {a};
    var b := new FileWrapper.Move(a, os, {a});
    assert {a} + {b} == {a, b};
    var c := new FileWrapper.Move(b, os, {a, b});
    assert {a, b} + {c} == {a, b, c} && {a, b, c} - {c} == {a, b};
    c.Destroy(os, {a, b, c});
    assert {a, b} - {b} == {a};
    b.Destroy(os, {a, b});
    assert {a} - {a} == {};
    a.Destroy(os, {a});
    AllClosedOnceWhenNoneLive(os);
  }

  /** Two open wrappers, the second move-assigned into the first, both
      destroyed: with the assignment as written the first descriptor is still
      open once no wrapper is left. */
  method LeakingAssignment(os: Os, p: string, q: string) returns (leaked: int)
    requires os.Valid() && ClosedOnce(os) && os.table == map[]
    requires p in os.files && q in os.files
    modifies os
    ensures leaked in os.table
    ensures !NoLeak(os, {})
  {
    var a := new FileWrapper(os, p, {});
    assert {} + {a} == {a};
    var b := new FileWrapper(os, q, {a});
    assert {a} + {b} == {a, b};
    leaked := a.fd;
    a.MoveAssign(b, os, {a, b});
    assert {a, b} - {b} == {a};
    b.Destroy(os, {a, b});
    a.Destroy(os, {a});
  }

  /** The same sequence with the releasing assignment: nothing is left open
      and both descriptors are closed, the first one first. */
  method ReleasingAssignment(os: Os, p: string, q: string) returns (first: int, second: int)
    requires os.Valid() && ClosedOnce(os) && os.table == map[]
    requires p in os.files && q in os.files
    modifies os
    ensures os.Valid() && ClosedOnce(os) && os.table == map[]
    ensures first != second
    ensures os.closeLog == old(os.closeLog) + [first, second]
  {
    assert NoLeak(os, {});
    var a := new FileWrapper(os, p, {});
    assert {} + {a} == {a};
    var b := new FileWrapper(os, q, {a});
    assert {a} + {b} == {a, b};
    first, second := a.fd, b.fd;
    a.MoveAssignReleasing(b, os, {a, b});
    assert {a, b} - {b} == {a};
    b.Destroy(os, {a, b});
    assert {a} - {a} == {};
    a.Destroy(os, {a});
    AllClosedOnceWhenNoneLive(os);
  }

  /** A self move-assignment as written: the wrapper ends up owning nothing
      while the descriptor it held stays open. */
  method SelfMoveLeaks(os: Os, path: string) returns (leaked: int)
    requires os.Valid() && ClosedOnce(os) && os.table == map[]
    requires path in os.files
    modifies os
    ensures leaked in os.table
    ensures !NoLeak(os, {})
  {
    var w := new FileWrapper(os, path, {});
    assert {} + {w} == {w};
    leaked := w.fd;
    w.MoveAssign(w, os, {w});
    assert w.fd == NoFd && leaked in os.table;
    w.Destroy(os, {w});
  }
}
