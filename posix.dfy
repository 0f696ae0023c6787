/**
 * An abstract model of the three system calls `FileWrapper` relies on:
 * `open`, `read` and `close`.
 *
 * The kernel is a file system (path to contents), a descriptor table (each
 * open descriptor to the part of its file not yet read) and a log of every
 * `close` request in the order it was made. Descriptors are handed out in
 * increasing order and never reused.
 */
module Posix {

  /** What `open` returns when it fails, and what a wrapper that owns nothing holds. */
  const NoFd := -1

  function Min(a: int, b: int): int
  {
    if a <= b then a else b
  }

  class Os {
    var files: map<string, seq<char>>
    var table: map<int, seq<char>>
    var next: int
    var closeLog: seq<int>

    /** Every open descriptor was handed out, and every descriptor handed out
        is either still open or has been the subject of a `close`. */
    ghost predicate Valid()
      reads this
    {
      0 <= next &&
      (forall d :: d in table ==> 0 <= d < next) &&
      (forall d :: 0 <= d < next ==> d in table || d in closeLog)
    }

    constructor (files: map<string, seq<char>>)
      ensures Valid()
      ensures this.files == files && table == map[] && next == 0 && closeLog == []
    {
      this.files := files;
      table, next, closeLog := map[], 0, [];
    }

    /** `open(path, O_RDONLY)`: a new descriptor positioned at the start of the
        file, or `NoFd` when there is no such file. */
    method Open(path: string) returns (fd: int)
      requires Valid()
      modifies this
      ensures Valid()
      ensures files == old(files) && closeLog == old(closeLog)
      ensures path in files ==>
        fd == old(next) && next == old(next) + 1 && fd !in old(table) &&
        table == old(table)[fd := files[path]]
      ensures path !in files ==> fd == NoFd && next == old(next) && table == old(table)
    {
      if path in files {
        fd := next;
        table := table[fd := files[path]];
        next := next + 1;
      } else {
        fd := NoFd;
      }
    }

    /** `read(fd, buf, count)`: some of the next bytes of the file, at most
        `count` of them and possibly fewer than are left (a short read; none at
        the end of the file), or -1 for a descriptor that is not open. */
    method Read(fd: int, count: nat) returns (n: int, data: seq<char>)
      requires Valid()
      modifies this
      ensures Valid()
      ensures files == old(files) && next == old(next) && closeLog == old(closeLog)
      ensures fd !in old(table) ==> n == -1 && data == [] && table == old(table)
      ensures fd in old(table) ==>
        0 <= n <= Min(count, |old(table)[fd]|) && data == old(table)[fd][..n] &&
        table == old(table)[fd := old(table)[fd][n..]]
    {
      if fd in table {
        var rest := table[fd];
        n :| 0 <= n <= count && n <= |rest|;
        data := rest[..n];
        table := table[fd := rest[n..]];
      } else {
        n, data := -1, [];
      }
    }

    /** `close(fd)`: 0 and the descriptor released when it was open, -1 and
        nothing released otherwise; every request is logged. */
    method Close(fd: int) returns (r: int)
      requires Valid()
      modifies this
      ensures Valid()
      ensures files == old(files) && next == old(next)
      ensures closeLog == old(closeLog) + [fd]
      ensures fd in old(table) ==> r == 0 && table == old(table) - {fd}
      ensures fd !in old(table) ==> r == -1 && table == old(table)
    {
      if fd in table {
        table := table - {fd};
        r := 0;
      } else {
        r := -1;
      }
      closeLog := closeLog + [fd];
    }
  }
}
