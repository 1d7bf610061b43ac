/** open_file (iobench.cpp:20-31): open the target file, first with the
    direct-I/O hint when it is asked for, then once more without it if that
    first open failed, and pre-size the file when it was opened for writing.

    The `open` system call is a parameter: `sys(flags)` is the descriptor the
    kernel returns for that flag set (negative on failure). O_DIRECT is taken
    to be defined, as it is on Linux and Android, so both `#ifdef` blocks are
    compiled in. */
module FileOpener {

  /** The open(2) flags the engine uses. O_RDONLY is a flag of its own here so
      that the two access modes can be told apart. */
  datatype Flag = ReadOnly | ReadWrite | Create | Direct

  /** Flags of the first attempt: read-write-create for writing, read-only
      otherwise, plus O_DIRECT when direct I/O is tried (iobench.cpp:21-23). */
  function InitialFlags(wr: bool, tryDirect: bool): set<Flag> {
    (if wr then {ReadWrite, Create} else {ReadOnly}) + (if tryDirect then {Direct} else {})
  }

  /** What one call did: the flag set of each open attempt in order, the
      descriptor it returns, and whether it called posix_fallocate. */
  datatype Outcome = Outcome(attempts: seq<set<Flag>>, fd: int, preallocated: bool)

  /** Whether the descriptor that was returned carries O_DIRECT. */
  function AchievedDirect(o: Outcome): bool {
    o.fd >= 0 && |o.attempts| > 0 && Direct in o.attempts[|o.attempts| - 1]
  }

  function OpenFile(wr: bool, tryDirect: bool, sys: set<Flag> -> int): (o: Outcome)
    ensures 1 <= |o.attempts| <= 2
    ensures o.attempts[0] == InitialFlags(wr, tryDirect)
    // a second attempt happens exactly when the first failed and O_DIRECT was tried
    ensures |o.attempts| == 2 <==> sys(o.attempts[0]) < 0 && tryDirect
    // and it keeps the access mode, dropping only O_DIRECT
    ensures |o.attempts| == 2 ==> o.attempts[1] == o.attempts[0] - {Direct} && Direct !in o.attempts[1]
    ensures o.fd == sys(o.attempts[|o.attempts| - 1])
    // the result is negative only if every attempt failed
    ensures o.fd < 0 <==> forall i :: 0 <= i < |o.attempts| ==> sys(o.attempts[i]) < 0
    // the file is pre-sized only after a successful open for writing
    ensures o.preallocated <==> o.fd >= 0 && wr
  {
    var flags := InitialFlags(wr, tryDirect);
    var fd := sys(flags);
    if fd < 0 && tryDirect then
      var retry := flags - {Direct};
      Outcome([flags, retry], sys(retry), sys(retry) >= 0 && wr)
    else
      Outcome([flags], fd, fd >= 0 && wr)
  }

  /** Direct I/O that the file system refuses never fails the open on its own:
      when the plain open would succeed, the call succeeds, without O_DIRECT. */
  lemma FallbackEngages(wr: bool, sys: set<Flag> -> int)
    requires sys(InitialFlags(wr, true)) < 0
    requires sys(InitialFlags(wr, false)) >= 0
    ensures OpenFile(wr, true, sys).fd >= 0
    ensures !AchievedDirect(OpenFile(wr, true, sys))
  {
    assert InitialFlags(wr, true) - {Direct} == InitialFlags(wr, false);
  }

  /** When direct I/O is not asked for, no attempt carries O_DIRECT and the
      outcome is that of the single plain open. */
  lemma NoDirectWhenNotTried(wr: bool, sys: set<Flag> -> int)
    ensures var o := OpenFile(wr, false, sys);
      |o.attempts| == 1 && Direct !in o.attempts[0] && o.fd == sys(InitialFlags(wr, false))
  {
  }
}
