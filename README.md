# Shared strings, a config watcher and a move-only file descriptor owner

A model, in Dafny, of the three small C++ fragments of the blog repository
whose behaviour can be stated:

- **Character counting over a shared string** (`smart-ptr/src/mutation.hpp`,
  module `Mutation`). The heap `std::string` behind a `shared_ptr` or
  `unique_ptr` is a `StringCell` object and a handle is a reference to it.
  `count_good` reads a string and counts a character; `count_bad` counts the
  same character but overwrites every match with `'*'` through the handle;
  `mutate`, `mutate2` and `mutate_unique` assign a literal through a handle.
  Both counts are proved equal to one specification function, `Occurrences`,
  which is itself proved equal to the number of matching indices; what
  `count_bad` leaves behind is the function `Masked` of the old string.
- **ConfigWatcher** (`smart-ptr/src/interfaces.hpp`, module `Interfaces`).
  The watcher owns a heap `Config`; `get_config` hands out that very object
  and `update_config` raises its port by one in place, so a reader that took
  its handle earlier sees every later update. The port is a C++ `int`, so an
  update needs a port below `INT_MAX`.
- **FileWrapper** (`modern-cpp/src/final.cpp`, `modern-cpp/src/final.hpp`,
  module `FileDescriptors`). A move-only owner of one descriptor, with `-1`
  (`NoFd`) meaning "owns nothing". The kernel it talks to is the class
  `Posix.Os`: a file system (path to contents), a descriptor table (open
  descriptor to the unread rest of its file) and a log of every `close`
  request. Ownership is stated over the ghost set of live wrappers: `Owned`
  (each held descriptor is open and held by one live wrapper only), `NoLeak`
  (each open descriptor is held by a live wrapper) and `ClosedOnce` (no
  descriptor is the subject of two `close` calls). Construction, move
  construction and destruction keep all three; move assignment as written
  keeps `Owned` but not `NoLeak` (see Findings).

## Model

| member | source | states |
|---|---|---|
| Mutation.Occurrences | smart-ptr/src/mutation.hpp:34-43 | the count of a character never exceeds the length of the string and is never negative |
| Mutation.OccurrencesIsIndexCount | smart-ptr/src/mutation.hpp:34-43 | the count equals the number of indices `i` with `s[i] == d` |
| Mutation.AbsentIffZero | smart-ptr/src/mutation.hpp:34-43 | the count is 0 exactly when no position of the string holds the character |
| Mutation.Masked | smart-ptr/src/mutation.hpp:22-29 | the masked string has the old length; a position that held `d` holds `'*'`, every other position keeps its character |
| Mutation.MaskedHasNone | smart-ptr/src/mutation.hpp:23-27 | when `d` is not `'*'`, no `d` is left after masking, so counting again gives 0 |
| Mutation.MaskedMaskCount | smart-ptr/src/mutation.hpp:23-27 | the `'*'` characters after masking are the old ones plus one per match (just the old ones when `d` is `'*'`) |
| Mutation.CountGood | smart-ptr/src/mutation.hpp:34-43 | `count_good` returns the number of occurrences, between 0 and the length; it receives the string as a value, so it cannot change it |
| Mutation.CountBad | smart-ptr/src/mutation.hpp:20-32 | `count_bad` returns the number of occurrences in the string as it was before the call (what `count_good` returns on it); afterwards the string is the masked old string: same length, matches replaced by `'*'`, all else unchanged, and no `d` left when `d` is not `'*'` |
| Mutation.CountBadTwice | smart-ptr/src/mutation.hpp:20-32 | two `count_bad` calls in a row with `d` other than `'*'`: the first returns the old count, the second returns 0 |
| Mutation.Mutate | smart-ptr/src/mutation.hpp:6-8 | the string behind the shared handle becomes "Not what you think!" |
| Mutation.Mutate2 | smart-ptr/src/mutation.hpp:10-14 | writing through a copy of the handle changes the one string: it becomes "Still not what you think" |
| Mutation.MutateUnique | smart-ptr/src/mutation.hpp:16-18 | the string behind the unique handle becomes "Same with unique_ptr" |
| Mutation.AliasDemo | smart-ptr/src/mutation.hpp:6-18 | another holder of the same shared handle reads exactly the literal each `mutate` wrote |
| Mutation.CountDemo | smart-ptr/src/main.cpp:4-14 | on "Hello shared world!" and `'l'` both counts are 3 and `count_bad` leaves "He**o shared wor*d!" |
| Interfaces.UpdatedTimes | smart-ptr/src/interfaces.hpp:30-32 | `n` updates raise the port by exactly `n` and leave hostname and url unchanged, as long as the port stays within an `int` |
| Interfaces.FreshWatcherAfterUpdates | smart-ptr/src/interfaces.hpp:14-32 | a fresh watcher after `n` updates holds "localhost", port 80 + n, "/index.html" |
| Interfaces.ConfigWatcher.constructor | smart-ptr/src/interfaces.hpp:14-17 | a new watcher owns a new config holding "localhost", port 80, "/index.html" |
| Interfaces.ConfigWatcher.GetConfig | smart-ptr/src/interfaces.hpp:23-25 | returns the watcher's own config object, not a copy, and changes nothing |
| Interfaces.ConfigWatcher.UpdateConfig | smart-ptr/src/interfaces.hpp:30-32 | the port goes up by exactly one, in place; hostname and url are unchanged; the port stays within an `int` |
| Interfaces.UpdateRepeatedly | smart-ptr/src/interfaces.hpp:30-32 | `n` calls of `update_config` on one watcher leave its config object holding the old value updated `n` times, so port + n with hostname and url unchanged |
| Interfaces.ReaderSeesUpdates | smart-ptr/src/main.cpp:19-28 | a handle taken before `update_config` reads 80 before and 81 after the update |
| Posix.Os.Open | modern-cpp/src/final.cpp:11 | `open` yields a descriptor not open before, positioned at the start of the file, or -1 when there is no such file |
| Posix.Os.Read | modern-cpp/src/final.cpp:44 | `read` yields some of the next unread bytes, at most the requested number and possibly fewer than are left, and advances past exactly those; -1 with nothing changed for a descriptor that is not open |
| Posix.Os.Close | modern-cpp/src/final.cpp:23 | `close` releases an open descriptor and returns 0, returns -1 for one that is not open, and logs the request either way |
| FileDescriptors.FileWrapper.constructor | modern-cpp/src/final.cpp:10-12 | the wrapper holds the descriptor `open` returned (or -1); ownership and close-once are kept with the new wrapper live |
| FileDescriptors.FileWrapper.Move | modern-cpp/src/final.cpp:14-19 | the new wrapper holds the source's former descriptor and the source holds -1; ownership, no-leak and close-once are kept |
| FileDescriptors.FileWrapper.Destroy | modern-cpp/src/final.cpp:21-27 | `close` is called exactly when the descriptor is non-negative, and then finds it open; a moved-from wrapper closes nothing; all three invariants are kept with the wrapper gone |
| FileDescriptors.FileWrapper.MoveAssign | modern-cpp/src/final.cpp:29-34 | the target holds the source's former descriptor and the source holds -1; the target's previous descriptor is not closed; a self move leaves -1 |
| FileDescriptors.FileWrapper.MoveAssignReleasing | modern-cpp/src/final.cpp:29-34 | corrected move assignment: closes the target's previous descriptor first and ignores a self move, keeping no-leak as well |
| FileDescriptors.FileWrapper.Read1024 | modern-cpp/src/final.cpp:36-50 | empty when the wrapper holds a negative descriptor or `read` yields no bytes; otherwise a prefix of the unread rest of the file, at most 1024 characters, and the file position advances by exactly its length |
| FileDescriptors.AllClosedOnceWhenNoneLive | modern-cpp/src/final.cpp:14-27 | once no wrapper is live, no descriptor is open and each descriptor ever opened appears exactly once in the close log |
| FileDescriptors.MoveChain | modern-cpp/src/final.cpp:14-27 | construct, move twice, destroy all three: the descriptor is closed exactly once and nothing stays open |
| FileDescriptors.LeakingAssignment | modern-cpp/src/final.cpp:29-34 | with move assignment as written, after both wrappers are destroyed the first descriptor is still open |
| FileDescriptors.SelfMoveLeaks | modern-cpp/src/final.cpp:29-34 | a self move-assignment as written leaves the wrapper holding -1 while its descriptor stays open, so after destruction it is never closed |
| FileDescriptors.ReleasingAssignment | modern-cpp/src/final.cpp:29-34 | with the corrected assignment, both descriptors are closed once each and nothing stays open |

## Left out

- `printf`/`fprintf` logging and `errno`/`strerror` reporting in every file: console output only.
- `shared_ptr`/`unique_ptr` reference counting and deallocation: handles are plain Dafny references, and the uniqueness of a `unique_ptr` is not enforced.
- CountGood: the count is an unbounded integer; a C++ `int` would overflow on a string with more than 2^31 - 1 matches.
- CountBad: same unbounded count as `CountGood`.
- Interfaces.ConfigWatcher.GetConfig: the returned handle is not read-only; Dafny has no `const` view of an object, so the `shared_ptr<const Config>` restriction is not modelled.
- The default member initialiser `fd{-1}` of `FileWrapper` is never observable: both constructors assign `fd`, and the class has no default constructor.
- The kernel never reuses a descriptor number and `read` fails only on a descriptor that is not open; real `open` reuses the lowest free number and `read` can fail for other reasons. Short reads are modelled: `read` may return any number of bytes up to what was asked for and what is left.
- The end of a wrapper's lifetime is its removal from the ghost set of live wrappers passed to `Destroy`; Dafny does not stop a caller from using the object afterwards.
- Copy construction and copy assignment are deleted in C++ and have no counterpart here.
- `modern-cpp/src/naive.cpp`, `modern-cpp/src/safe.cpp` and both `main.cpp` drivers (including `accidental_copy`) are not part of this model; the drivers appear only as the demo methods `CountDemo` and `ReaderSeesUpdates`.

## Findings

| source | as written | input that shows it | evidently intended | confidence | as-written member | corrected member |
|---|---|---|---|---|---|---|
| modern-cpp/src/final.cpp:29-34 | move assignment overwrites `fd` without closing the descriptor the target held, and a self move blanks the only owner | `FileWrapper a(p); FileWrapper b(q); a = std::move(b);` then both destroyed: the descriptor opened for `p` is never closed | close the target's descriptor (when it holds one) before taking the source's, and leave a self move alone, so every descriptor is closed once | medium, not executed | FileDescriptors.FileWrapper.MoveAssign, exhibited by FileDescriptors.LeakingAssignment and FileDescriptors.SelfMoveLeaks | FileDescriptors.FileWrapper.MoveAssignReleasing, used by FileDescriptors.ReleasingAssignment |
