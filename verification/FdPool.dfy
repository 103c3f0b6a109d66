/** The file-descriptor pool and its exclusive locks: the operations on values, and what every run of them keeps. */
module FdTable {
  import opened Bytes
  import opened Errno
  import opened Words

  const MAX_FD: nat := 32

  /** The entry of the device list that discards output. */
  const DEV_NULL: nat := 1

  /** A descriptor; `dev` is 0 when it is free.  `excl` and `isDev` are the two flag bits the system keeps for itself,
      `flags` the caller's. */
  datatype Fd = Fd(dev: nat, priv: int, excl: bool, isDev: bool, flags: int) {
    predicate IsFree() {
      dev == 0
    }

    function Freed(): Fd {
      Fd(0, priv, false, false, 0)
    }
  }

  /** The pool and its high-water mark; `fs` are the entries that are file systems rather than devices. */
  datatype Pool = Pool(fds: seq<Fd>, maxFd: int, fs: set<nat>)

  /** What the driver's own open does when it has one: its result, and the private word it leaves. */
  datatype Opening = Opening(status: int, priv: int)

  /** An outcome: the pool, the result, and the error number when the result is negative. */
  datatype Outcome = Outcome(pool: Pool, rc: int, errno: int)

  datatype Request = ExclusiveOn | ExclusiveOff | OtherRequest

  // ---------------------------------------------------------------- the operations

  /** The first free descriptor from `i` on, or -1. */
  function FirstFree(fds: seq<Fd>, i: nat): (k: int)
    requires i <= |fds|
    ensures k == -1 || (i <= k < |fds| && fds[k].IsFree())
    ensures forall j :: i <= j < (if k == -1 then |fds| else k) ==> !fds[j].IsFree()
    decreases |fds| - i
  {
    if i == |fds| then -1 else if fds[i].IsFree() then i else FirstFree(fds, i + 1)
  }

  /** Another descriptor, up to the high-water mark, holds the device of `x`. */
  predicate HeldElsewhere(p: Pool, x: nat)
    requires x < |p.fds|
  {
    exists i :: 0 <= i <= p.maxFd && i < |p.fds| && i != x && p.fds[i].dev == p.fds[x].dev && p.fds[i].excl
  }

  /** Another descriptor strictly below the high-water mark uses the device of `x`. */
  predicate UsedBelow(p: Pool, x: nat)
    requires x < |p.fds|
  {
    exists i :: 0 <= i < p.maxFd && i < |p.fds| && i != x && p.fds[i].dev == p.fds[x].dev
  }

  function Released(p: Pool, x: int): Pool {
    if 2 < x < |p.fds| then p.(fds := p.fds[x := p.fds[x].Freed()]) else p
  }

  /** Descriptor `k` given to `dev`, before anybody is asked. */
  function Claimed(p: Pool, k: nat, dev: nat, flags: int): Pool
    requires k < |p.fds|
  {
    Pool(p.fds[k := Fd(dev, p.fds[k].priv, false, dev !in p.fs, flags)], Max(k, p.maxFd), p.fs)
  }

  /** The driver of the descriptor `k` has its say: the new pool and status. */
  function Asked(p: Pool, k: nat, driver: Option<Opening>): (Pool, int)
    requires k < |p.fds|
  {
    if driver.None? then (p, 0)
    else (p.(fds := p.fds[k := p.fds[k].(priv := driver.value.priv)]), driver.value.status)
  }

  /** `target` is what the name was found to be. */
  function Open(p: Pool, target: Option<nat>, flags: int, driver: Option<Opening>): Outcome {
    if target.None? then Outcome(p, -1, ENODEV)
    else
      var k := FirstFree(p.fds, 0);
      if k < 0 then Outcome(p, -1, EMFILE)
      else
        var q := Claimed(p, k, target.value, flags);
        if target.value !in p.fs && HeldElsewhere(q, k) then Outcome(Released(q, k), -1, EACCES)
        else
          var (r, status) := Asked(q, k, driver);
          if status < 0 then Outcome(Released(r, k), -1, -status) else Outcome(r, k, 0)
  }

  /** `driver` is what the driver's own close returns, if it has one. */
  function Close(p: Pool, x: int, driver: Option<int>): Outcome {
    if x < 0 then Outcome(p, -1, EBADFD)
    else if driver.Some? && driver.value < 0 then Outcome(Released(p, x), -1, -driver.value)
    else Outcome(Released(p, x), 0, 0)
  }

  function WithLock(p: Pool, x: nat, excl: bool): Pool
    requires x < |p.fds|
  {
    p.(fds := p.fds[x := p.fds[x].(excl := excl)])
  }

  /** `driver` is what the driver's own ioctl returns, if it has one. */
  function Ioctl(p: Pool, x: int, req: Request, driver: Option<int>): Outcome
    requires x < |p.fds|
  {
    if x < 0 then Outcome(p, -EBADFD, EBADFD)
    else if p.fds[x].isDev && req == ExclusiveOn then
      if UsedBelow(p, x) then Outcome(p, -EACCES, EACCES) else Outcome(WithLock(p, x, true), 0, 0)
    else if p.fds[x].isDev && req == ExclusiveOff then Outcome(WithLock(p, x, false), 0, 0)
    else
      var rc := if driver.Some? then driver.value else -ENOTTY;
      Outcome(p, rc, if rc < 0 then -rc else 0)
  }

  /** Point descriptor `x` elsewhere: open, copy the new descriptor over `x`, release the new descriptor. */
  function Redirect(p: Pool, x: nat, target: Option<nat>, flags: int, driver: Option<Opening>): Pool
    requires x < |p.fds|
  {
    var o := Open(p, target, flags, driver);
    if o.rc < 0 then o.pool else Moved(o.pool, x, o.rc)
  }

  function Moved(p: Pool, x: nat, from: int): Pool {
    if 0 <= from < |p.fds| && x < |p.fds| then Released(p.(fds := p.fds[x := p.fds[from]]), from) else p
  }

  // ---------------------------------------------------------------- what holds of the table

  ghost predicate EntryKept(f: Fd, i: nat, maxFd: int, fs: set<nat>) {
    && (f.IsFree() ==> !f.excl && !f.isDev && f.flags == 0)
    && (!f.IsFree() ==> i <= Max(2, maxFd))
    && (f.isDev ==> f.dev !in fs && 3 <= maxFd)
    && (f.excl ==> f.isDev)
  }

  ghost predicate EntriesKept(fds: seq<Fd>, maxFd: int, fs: set<nat>) {
    forall i :: 0 <= i < |fds| ==> EntryKept(fds[i], i, maxFd, fs)
  }

  /** Whoever holds a device is the lowest of its users. */
  ghost predicate HoldersFirst(fds: seq<Fd>) {
    forall x, y :: 0 <= x < |fds| && 0 <= y < |fds| && x != y && fds[x].excl && fds[x].dev == fds[y].dev ==> x < y
  }

  ghost predicate Kept(p: Pool) {
    && |p.fds| == MAX_FD
    && (p.maxFd == -1 || 3 <= p.maxFd < MAX_FD)
    && !p.fds[0].IsFree() && !p.fds[1].IsFree() && !p.fds[2].IsFree()
    && EntriesKept(p.fds, p.maxFd, p.fs)
    && HoldersFirst(p.fds)
  }

  /** The table at power-up: three descriptors on the null device, the rest free. */
  function Initial(fs: set<nat>): Pool {
    Pool(seq(MAX_FD, i => Fd(if i < 3 then DEV_NULL else 0, 0, false, false, 0)), -1, fs)
  }

  lemma InitialIsKept(fs: set<nat>)
    ensures Kept(Initial(fs))
  {
  }

  /** Two holders of one device are one descriptor. */
  lemma AtMostOneHolder(p: Pool, x: nat, y: nat)
    requires Kept(p) && x < MAX_FD && y < MAX_FD
    requires p.fds[x].excl && p.fds[y].excl && p.fds[x].dev == p.fds[y].dev
    ensures x == y
  {
  }

  // ---------------------------------------------------------------- each operation keeps it

  lemma HigherMark(fds: seq<Fd>, maxFd: int, higher: int, fs: set<nat>)
    requires EntriesKept(fds, maxFd, fs) && maxFd <= higher
    ensures EntriesKept(fds, higher, fs)
  {
    forall i | 0 <= i < |fds|
      ensures EntryKept(fds[i], i, higher, fs)
    {
      assert EntryKept(fds[i], i, maxFd, fs);
    }
  }

  lemma EntryReplaced(fds: seq<Fd>, x: nat, f: Fd, maxFd: int, fs: set<nat>)
    requires EntriesKept(fds, maxFd, fs) && x < |fds| && EntryKept(f, x, maxFd, fs)
    ensures EntriesKept(fds[x := f], maxFd, fs)
  {
    var replaced := fds[x := f];
    forall i | 0 <= i < |fds|
      ensures EntryKept(replaced[i], i, maxFd, fs)
    {
      if i != x {
        assert EntryKept(fds[i], i, maxFd, fs);
      }
    }
  }

  /** A descriptor that holds nothing may be put anywhere provided nobody above holds its device. */
  lemma NonHolderPlaced(fds: seq<Fd>, x: nat, f: Fd)
    requires HoldersFirst(fds) && x < |fds| && !f.excl
    requires forall i :: 0 <= i < |fds| && i != x && fds[i].excl ==> fds[i].dev != f.dev || i < x
    ensures HoldersFirst(fds[x := f])
  {
  }

  lemma ReleaseKeeps(p: Pool, x: int)
    requires Kept(p)
    ensures Kept(Released(p, x))
    ensures Released(p, x).maxFd == p.maxFd && Released(p, x).fs == p.fs
  {
    if 2 < x < MAX_FD {
      EntryReplaced(p.fds, x, p.fds[x].Freed(), p.maxFd, p.fs);
      forall i | 0 <= i < MAX_FD && i != x && p.fds[i].excl
        ensures p.fds[i].dev != 0
      {
        assert EntryKept(p.fds[i], i, p.maxFd, p.fs);
      }
      NonHolderPlaced(p.fds, x, p.fds[x].Freed());
    }
  }

  /** Nobody holds `dev` but, at most, descriptor `k`. */
  ghost predicate NobodyHolds(fds: seq<Fd>, dev: nat) {
    forall i :: 0 <= i < |fds| && fds[i].excl ==> fds[i].dev != dev
  }

  /** Scanning up to the mark is scanning the whole table. */
  lemma ScanIsComplete(p: Pool, k: nat, dev: nat, flags: int)
    requires Kept(p) && k < MAX_FD && p.fds[k].IsFree() && dev != 0
    ensures HeldElsewhere(Claimed(p, k, dev, flags), k) <==> !NobodyHolds(p.fds, dev)
  {
    var q := Claimed(p, k, dev, flags);
    assert EntryKept(p.fds[k], k, p.maxFd, p.fs);
    if !NobodyHolds(p.fds, dev) {
      var i :| 0 <= i < MAX_FD && p.fds[i].excl && p.fds[i].dev == dev;
      assert EntryKept(p.fds[i], i, p.maxFd, p.fs);
      assert q.fds[i] == p.fds[i] && i <= q.maxFd;
    }
  }

  lemma FileSystemsAreNotHeld(p: Pool, dev: nat)
    requires Kept(p) && dev in p.fs
    ensures NobodyHolds(p.fds, dev)
  {
    forall i | 0 <= i < MAX_FD && p.fds[i].excl
      ensures p.fds[i].dev != dev
    {
      assert EntryKept(p.fds[i], i, p.maxFd, p.fs);
    }
  }

  lemma ClaimKeeps(p: Pool, k: nat, f: Fd)
    requires Kept(p) && 3 <= k < MAX_FD && p.fds[k].IsFree()
    requires f.dev != 0 && !f.excl && (f.isDev ==> f.dev !in p.fs)
    requires NobodyHolds(p.fds, f.dev)
    ensures Kept(Pool(p.fds[k := f], Max(k, p.maxFd), p.fs))
  {
    HigherMark(p.fds, p.maxFd, Max(k, p.maxFd), p.fs);
    EntryReplaced(p.fds, k, f, Max(k, p.maxFd), p.fs);
    NonHolderPlaced(p.fds, k, f);
  }

  /** A slot that was free, written and freed again. */
  lemma GiveUpKeeps(p: Pool, k: nat, f: Fd)
    requires Kept(p) && 3 <= k < MAX_FD && p.fds[k].IsFree()
    ensures Kept(Released(Pool(p.fds[k := f], Max(k, p.maxFd), p.fs), k))
    ensures SameUse(p, Released(Pool(p.fds[k := f], Max(k, p.maxFd), p.fs), k))
  {
    var mark := Max(k, p.maxFd);
    assert p.fds[k := f][k := f.Freed()] == p.fds[k := f.Freed()];
    HigherMark(p.fds, p.maxFd, mark, p.fs);
    EntryReplaced(p.fds, k, f.Freed(), mark, p.fs);
    forall i | 0 <= i < MAX_FD && p.fds[i].excl
      ensures p.fds[i].dev != 0
    {
      assert EntryKept(p.fds[i], i, p.maxFd, p.fs);
    }
    NonHolderPlaced(p.fds, k, f.Freed());
  }

  /** The same descriptors are in use, for the same things. */
  ghost predicate SameUse(p: Pool, q: Pool) {
    && |q.fds| == |p.fds|
    && forall i :: 0 <= i < |p.fds| ==> q.fds[i] == p.fds[i] || (q.fds[i].IsFree() && p.fds[i].IsFree())
  }

  /** An open that is let through: the device is not held, the lowest free descriptor is it, the others are as
      before. */
  ghost predicate Opened(p: Pool, o: Outcome, dev: nat, flags: int) {
    && 3 <= o.rc < |p.fds| == |o.pool.fds|
    && p.fds[o.rc].IsFree()
    && (forall j :: 0 <= j < o.rc ==> !p.fds[j].IsFree())
    && NobodyHolds(p.fds, dev)
    && o.pool.fds == p.fds[o.rc := o.pool.fds[o.rc]]
    && o.pool.fds[o.rc] == Fd(dev, o.pool.fds[o.rc].priv, false, dev !in p.fs, flags)
  }

  lemma ClaimedSlot(p: Pool)
    requires Kept(p)
    ensures FirstFree(p.fds, 0) == -1 || 3 <= FirstFree(p.fds, 0) < MAX_FD
  {
  }

  lemma AskedIsOneEntry(p: Pool, k: nat, dev: nat, flags: int, driver: Option<Opening>)
    requires k < |p.fds|
    ensures var priv := if driver.Some? then driver.value.priv else p.fds[k].priv;
            Asked(Claimed(p, k, dev, flags), k, driver).0
            == Pool(p.fds[k := Fd(dev, priv, false, dev !in p.fs, flags)], Max(k, p.maxFd), p.fs)
  {
  }

  /** Open keeps the table; it succeeds exactly when the name was found, a descriptor is free, nobody holds the device
      and the driver agrees; and a failed open leaves every descriptor in the use it was. */
  lemma OpenKeeps(p: Pool, target: Option<nat>, flags: int, driver: Option<Opening>)
    requires Kept(p) && (target.Some? ==> target.value != 0)
    ensures var o := Open(p, target, flags, driver);
            && Kept(o.pool) && o.pool.fs == p.fs
            && (o.rc >= 0 <==> target.Some? && FirstFree(p.fds, 0) >= 0 && NobodyHolds(p.fds, target.value)
                               && (driver.Some? ==> driver.value.status >= 0))
            && (o.rc >= 0 ==> Opened(p, o, target.value, flags))
            && (o.rc < 0 ==> o.rc == -1 && SameUse(p, o.pool))
  {
    ClaimedSlot(p);
    var k := FirstFree(p.fds, 0);
    if target.Some? && k >= 0 {
      var dev := target.value;
      ScanIsComplete(p, k, dev, flags);
      if dev in p.fs {
        FileSystemsAreNotHeld(p, dev);
      }
      GiveUpKeeps(p, k, Fd(dev, p.fds[k].priv, false, dev !in p.fs, flags));
      AskedIsOneEntry(p, k, dev, flags, driver);
      var priv := if driver.Some? then driver.value.priv else p.fds[k].priv;
      var f := Fd(dev, priv, false, dev !in p.fs, flags);
      GiveUpKeeps(p, k, f);
      if NobodyHolds(p.fds, dev) {
        ClaimKeeps(p, k, f);
      }
    }
  }

  /** Closing what an open returned leaves every descriptor in the use it was. */
  lemma CloseUndoesOpen(p: Pool, target: Option<nat>, flags: int, opening: Option<Opening>, closing: Option<int>)
    requires Kept(p) && (target.Some? ==> target.value != 0) && Open(p, target, flags, opening).rc >= 0
    ensures var o := Open(p, target, flags, opening);
            SameUse(p, Close(o.pool, o.rc, closing).pool)
  {
    OpenKeeps(p, target, flags, opening);
  }

  lemma UnlockKeeps(p: Pool, x: nat)
    requires Kept(p) && x < MAX_FD
    ensures Kept(WithLock(p, x, false))
  {
    assert EntryKept(p.fds[x], x, p.maxFd, p.fs);
    EntryReplaced(p.fds, x, p.fds[x].(excl := false), p.maxFd, p.fs);
    NonHolderPlaced(p.fds, x, p.fds[x].(excl := false));
  }

  /** The scan for other users misses exactly the one at the mark. */
  lemma ScanMissesTheMark(p: Pool, x: nat)
    requires Kept(p) && x < MAX_FD && p.fds[x].isDev
    ensures UsedBelow(p, x)
        <==> exists y :: 0 <= y < MAX_FD && y != x && y != p.maxFd && p.fds[y].dev == p.fds[x].dev
  {
    assert EntryKept(p.fds[x], x, p.maxFd, p.fs);
    if y :| 0 <= y < MAX_FD && y != x && y != p.maxFd && p.fds[y].dev == p.fds[x].dev {
      assert EntryKept(p.fds[y], y, p.maxFd, p.fs);
    }
  }

  lemma LockKeeps(p: Pool, x: nat)
    requires Kept(p) && x < MAX_FD && p.fds[x].isDev && !UsedBelow(p, x)
    ensures Kept(WithLock(p, x, true))
  {
    assert EntryKept(p.fds[x], x, p.maxFd, p.fs);
    EntryReplaced(p.fds, x, p.fds[x].(excl := true), p.maxFd, p.fs);
    ScanMissesTheMark(p, x);
    var fds := WithLock(p, x, true).fds;
    forall a, b | 0 <= a < MAX_FD && 0 <= b < MAX_FD && a != b && fds[a].excl && fds[a].dev == fds[b].dev
      ensures a < b
    {
      assert p.fds[a].dev == p.fds[b].dev;
      assert a == x || p.fds[a].excl;
    }
  }

  lemma RedirectKeeps(p: Pool, x: nat, target: Option<nat>, flags: int, driver: Option<Opening>)
    requires Kept(p) && x < 3 && (target.Some? ==> target.value != 0)
    ensures var q := Redirect(p, x, target, flags, driver);
            && Kept(q) && q.fs == p.fs
            && SameUse(p, q.(fds := q.fds[x := p.fds[x]]))
            && (if Open(p, target, flags, driver).rc >= 0
                then NobodyHolds(p.fds, target.value) && (driver.Some? ==> q.fds[x].priv == driver.value.priv)
                     && q.fds[x] == Fd(target.value, q.fds[x].priv, false, target.value !in p.fs, flags)
                else q.fds[x] == p.fds[x])
  {
    OpenKeeps(p, target, flags, driver);
    var o := Open(p, target, flags, driver);
    if o.rc >= 0 {
      CopyDownKeeps(o.pool, x, o.rc);
      assert p.fds[x] == o.pool.fds[x];
    }
  }

  lemma CopyDownKeeps(p: Pool, x: nat, from: int)
    requires Kept(p) && x < 3 && 3 <= from < MAX_FD
    requires !p.fds[from].IsFree() && !p.fds[from].excl && NobodyHolds(p.fds, p.fds[from].dev)
    ensures Kept(Moved(p, x, from)) && Moved(p, x, from).fs == p.fs
    ensures Moved(p, x, from).fds == p.fds[x := p.fds[from]][from := p.fds[from].Freed()]
  {
    assert EntryKept(p.fds[from], from, p.maxFd, p.fs);
    EntryReplaced(p.fds, x, p.fds[from], p.maxFd, p.fs);
    NonHolderPlaced(p.fds, x, p.fds[from]);
    ReleaseKeeps(p.(fds := p.fds[x := p.fds[from]]), from);
  }

  // ---------------------------------------------------------------- runs

  datatype Op =
    | OpenOp(target: Option<nat>, flags: int, opening: Option<Opening>)
    | CloseOp(x: int, closing: Option<int>)
    | IoctlOp(x: int, req: Request, answer: Option<int>)
    | RedirectOp(std: nat, target: Option<nat>, flags: int, opening: Option<Opening>)

  /** What the calls ask of their caller: a negative descriptor is answered with an error, one that is not in use is
      followed to a null device.  Only the standard descriptors are redirected. */
  ghost predicate Legal(p: Pool, op: Op)
    requires |p.fds| == MAX_FD
  {
    match op
    case OpenOp(target, _, _) => target.Some? ==> target.value != 0
    case CloseOp(x, _) => x < MAX_FD && (x >= 0 ==> !p.fds[x].IsFree())
    case IoctlOp(x, _, _) => x < MAX_FD && (x >= 0 ==> !p.fds[x].IsFree())
    case RedirectOp(std, target, _, _) => std < 3 && (target.Some? ==> target.value != 0)
  }

  function Step(p: Pool, op: Op): Pool
    requires |p.fds| == MAX_FD && Legal(p, op)
  {
    match op
    case OpenOp(target, flags, opening) => Open(p, target, flags, opening).pool
    case CloseOp(x, closing) => Close(p, x, closing).pool
    case IoctlOp(x, req, answer) => Ioctl(p, x, req, answer).pool
    case RedirectOp(std, target, flags, opening) => Redirect(p, std, target, flags, opening)
  }

  lemma IoctlKeeps(p: Pool, x: int, req: Request, driver: Option<int>)
    requires Kept(p) && x < MAX_FD
    ensures Kept(Ioctl(p, x, req, driver).pool) && Ioctl(p, x, req, driver).pool.fs == p.fs
  {
    if x >= 0 && p.fds[x].isDev {
      UnlockKeeps(p, x);
      if !UsedBelow(p, x) {
        LockKeeps(p, x);
      }
    }
  }

  lemma StepKeeps(p: Pool, op: Op)
    requires Kept(p) && Legal(p, op)
    ensures Kept(Step(p, op)) && Step(p, op).fs == p.fs
  {
    match op
    case OpenOp(target, flags, opening) => OpenKeeps(p, target, flags, opening);
    case CloseOp(x, _) => ReleaseKeeps(p, x);
    case IoctlOp(x, req, answer) => IoctlKeeps(p, x, req, answer);
    case RedirectOp(std, target, flags, opening) => RedirectKeeps(p, std, target, flags, opening);
  }

  /** `pools` is a run: each pool is the one before after a call its caller was allowed to make. */
  ghost predicate IsRun(pools: seq<Pool>, ops: seq<Op>) {
    && |pools| == |ops| + 1
    && (forall i :: 0 <= i < |pools| ==> |pools[i].fds| == MAX_FD)
    && (forall i {:trigger ops[i]} :: 0 <= i < |ops| ==>
          Legal(pools[i], ops[i]) && pools[i + 1] == Step(pools[i], ops[i]))
  }

  lemma RunStep(pools: seq<Pool>, ops: seq<Op>, n: nat)
    requires IsRun(pools, ops) && n < |ops|
    ensures |pools[n].fds| == MAX_FD && Legal(pools[n], ops[n]) && pools[n + 1] == Step(pools[n], ops[n])
  {
  }

  lemma {:induction false} RunIsKept(pools: seq<Pool>, ops: seq<Op>, fs: set<nat>, n: nat)
    requires IsRun(pools, ops) && pools[0] == Initial(fs) && n <= |ops|
    ensures Kept(pools[n]) && pools[n].fs == fs
  {
    if n == 0 {
      InitialIsKept(fs);
    } else {
      RunIsKept(pools, ops, fs, n - 1);
      RunStep(pools, ops, n - 1);
      StepKeeps(pools[n - 1], ops[n - 1]);
    }
  }

  /** Every pool of every run from power-up: one holder at most for a device, and it is the lowest of its users;
      no descriptor in use above the mark; the standard descriptors in use. */
  lemma EveryRunIsKept(pools: seq<Pool>, ops: seq<Op>, fs: set<nat>, n: nat)
    requires IsRun(pools, ops) && pools[0] == Initial(fs) && n <= |ops|
    ensures Kept(pools[n]) && pools[n].fs == fs
    ensures forall x, y :: 0 <= x < MAX_FD && 0 <= y < MAX_FD ==>
              (Holds(pools[n], x, pools[n].fds[y].dev) && pools[n].fds[y].excl ==> x == y)
    ensures forall i :: 0 <= i < MAX_FD ==> (i < 3 ==> !pools[n].fds[i].IsFree())
                                            && (!pools[n].fds[i].IsFree() ==> i <= Max(2, pools[n].maxFd))
  {
    RunIsKept(pools, ops, fs, n);
    forall i | 0 <= i < MAX_FD
      ensures !pools[n].fds[i].IsFree() ==> i <= Max(2, pools[n].maxFd)
    {
      assert EntryKept(pools[n].fds[i], i, pools[n].maxFd, pools[n].fs);
    }
  }

  // ---------------------------------------------------------------- what a lock is worth

  ghost predicate Holds(p: Pool, h: nat, dev: nat) {
    h < |p.fds| && p.fds[h].excl && p.fds[h].dev == dev
  }

  /** The call gives up what `h` holds: its own close (the standard descriptors are never freed), its own unlock, or a
      redirection of it. */
  ghost predicate GivesUp(op: Op, h: nat) {
    match op
    case OpenOp(_, _, _) => false
    case CloseOp(x, _) => x == h > 2
    case IoctlOp(x, req, _) => x == h && req == ExclusiveOff
    case RedirectOp(std, _, _, _) => std == h
  }

  /** No descriptor uses `dev` afterwards that did not before. */
  ghost predicate NoNewUser(p: Pool, q: Pool, dev: nat) {
    && |q.fds| == |p.fds|
    && forall i :: 0 <= i < |p.fds| && q.fds[i].dev == dev ==> p.fds[i].dev == dev
  }

  lemma HeldDevicesAreNotOpened(p: Pool, h: nat, target: Option<nat>, flags: int, driver: Option<Opening>)
    requires Kept(p) && target.Some? && target.value != 0 && Holds(p, h, target.value)
    ensures Open(p, target, flags, driver).rc == -1
    ensures FirstFree(p.fds, 0) >= 0 ==> Open(p, target, flags, driver).errno == EACCES
  {
    OpenKeeps(p, target, flags, driver);
    var k := FirstFree(p.fds, 0);
    if k >= 0 {
      ScanIsComplete(p, k, target.value, flags);
      assert EntryKept(p.fds[h], h, p.maxFd, p.fs);
    }
  }

  lemma StepRespectsLock(p: Pool, op: Op, next: Pool, h: nat, dev: nat)
    requires Kept(p) && Legal(p, op) && next == Step(p, op) && Holds(p, h, dev) && dev != 0 && !GivesUp(op, h)
    ensures Holds(next, h, dev) && NoNewUser(p, next, dev)
  {
    match op
    case OpenOp(target, flags, opening) =>
      OpenKeeps(p, target, flags, opening);
    case CloseOp(x, _) =>
    case IoctlOp(x, req, answer) =>
    case RedirectOp(std, target, flags, opening) =>
      RedirectKeeps(p, std, target, flags, opening);
      var q := Redirect(p, std, target, flags, opening);
      var same := q.fds[std := p.fds[std]];
      assert same[h] == q.fds[h];
      forall i | 0 <= i < |p.fds| && q.fds[i].dev == dev
        ensures p.fds[i].dev == dev
      {
        if i != std {
          assert same[i] == q.fds[i];
        }
      }
  }

  lemma NextRespectsLock(pools: seq<Pool>, ops: seq<Op>, fs: set<nat>, n: nat, h: nat, dev: nat)
    requires IsRun(pools, ops) && pools[0] == Initial(fs) && 0 < n <= |ops| && dev != 0
    requires Holds(pools[n - 1], h, dev) && !GivesUp(ops[n - 1], h)
    ensures Holds(pools[n], h, dev) && NoNewUser(pools[n - 1], pools[n], dev)
  {
    RunIsKept(pools, ops, fs, n - 1);
    RunStep(pools, ops, n - 1);
    StepRespectsLock(pools[n - 1], ops[n - 1], pools[n], h, dev);
  }

  lemma {:induction false} LockPersists(pools: seq<Pool>, ops: seq<Op>, fs: set<nat>, start: nat, end: nat,
                                        h: nat, dev: nat)
    requires IsRun(pools, ops) && pools[0] == Initial(fs) && start <= end <= |ops| && dev != 0
    requires Holds(pools[start], h, dev)
    requires forall i :: start <= i < end ==> !GivesUp(ops[i], h)
    ensures Holds(pools[end], h, dev) && NoNewUser(pools[start], pools[end], dev)
    decreases end
  {
    if start < end {
      LockPersists(pools, ops, fs, start, end - 1, h, dev);
      NextRespectsLock(pools, ops, fs, end, h, dev);
      UsersOnlyShrink(pools[start], pools[end - 1], pools[end], dev);
    }
  }

  lemma UsersOnlyShrink(p: Pool, q: Pool, r: Pool, dev: nat)
    requires NoNewUser(p, q, dev) && NoNewUser(q, r, dev)
    ensures NoNewUser(p, r, dev)
  {
    forall i | 0 <= i < |p.fds| && r.fds[i].dev == dev
      ensures p.fds[i].dev == dev
    {
      assert q.fds[i].dev == dev;
    }
  }

  /** From the moment `h` holds a device until `h` gives it up, through any calls on any descriptors, `h` keeps it,
      nobody starts to use the device, and every open of it fails. */
  lemma LockExcludesOpens(pools: seq<Pool>, ops: seq<Op>, fs: set<nat>, start: nat, end: nat, h: nat, dev: nat,
                          flags: int, driver: Option<Opening>)
    requires IsRun(pools, ops) && pools[0] == Initial(fs) && start <= end <= |ops| && dev != 0
    requires Holds(pools[start], h, dev)
    requires forall i :: start <= i < end ==> !GivesUp(ops[i], h)
    ensures Holds(pools[end], h, dev) && NoNewUser(pools[start], pools[end], dev)
    ensures Open(pools[end], Some(dev), flags, driver).rc == -1
    ensures FirstFree(pools[end].fds, 0) >= 0 ==> Open(pools[end], Some(dev), flags, driver).errno == EACCES
  {
    LockPersists(pools, ops, fs, start, end, h, dev);
    RunIsKept(pools, ops, fs, end);
    HeldDevicesAreNotOpened(pools[end], h, Some(dev), flags, driver);
  }

  /** Nobody else uses the device of `x`: what the comments on the lock promise it is granted upon. */
  ghost predicate SoleUser(p: Pool, x: nat)
    requires x < |p.fds|
  {
    forall y :: 0 <= y < |p.fds| && y != x ==> p.fds[y].dev != p.fds[x].dev
  }

  /** A lock that is granted is exclusive exactly when the descriptor at the mark is not another user of the device. */
  lemma GrantedIsExclusiveExactlyOffTheMark(p: Pool, x: nat, driver: Option<int>)
    requires Kept(p) && x < MAX_FD && p.fds[x].isDev && Ioctl(p, x, ExclusiveOn, driver).rc == 0
    ensures SoleUser(p, x) <==> p.maxFd == x || p.fds[p.maxFd].dev != p.fds[x].dev
  {
    assert EntryKept(p.fds[x], x, p.maxFd, p.fs);
    ScanMissesTheMark(p, x);
  }

  /** A sole user is never refused. */
  lemma SoleUserIsGranted(p: Pool, x: nat, driver: Option<int>)
    requires Kept(p) && x < MAX_FD && p.fds[x].isDev && SoleUser(p, x)
    ensures Ioctl(p, x, ExclusiveOn, driver).rc == 0
    ensures Holds(Ioctl(p, x, ExclusiveOn, driver).pool, x, p.fds[x].dev)
  {
    ScanMissesTheMark(p, x);
  }

  /** What a request leaves alone: nothing but the lock of the descriptor ever changes, and that only when the request
      to lock or unlock it succeeds on a device.  Every other request is answered by the driver. */
  lemma IoctlTouchesOnlyTheLock(p: Pool, x: int, req: Request, driver: Option<int>)
    requires x < |p.fds|
    ensures var o := Ioctl(p, x, req, driver);
      && (o.rc < 0 ==> o.pool == p && o.errno == -o.rc)
      && (x < 0 ==> o.rc == -EBADFD)
      && (x >= 0 && (!p.fds[x].isDev || req == OtherRequest) ==>
            o.pool == p && o.rc == if driver.Some? then driver.value else -ENOTTY)
      && (x >= 0 && p.fds[x].isDev && req == ExclusiveOn ==> o.rc == 0 || o.rc == -EACCES)
      && (x >= 0 && p.fds[x].isDev && req == ExclusiveOn && o.rc == 0 ==>
            o.pool == p.(fds := p.fds[x := p.fds[x].(excl := true)]))
      && (x >= 0 && p.fds[x].isDev && req == ExclusiveOff ==>
            o.rc == 0 && o.pool == p.(fds := p.fds[x := p.fds[x].(excl := false)]))
  {
  }

  /** An unlock by the holder of a device always succeeds, and nobody holds the device any more. */
  lemma UnlockReleases(p: Pool, h: nat, dev: nat, driver: Option<int>)
    requires Kept(p) && Holds(p, h, dev)
    ensures var o := Ioctl(p, h, ExclusiveOff, driver);
      && o.rc == 0 && Kept(o.pool) && NobodyHolds(o.pool.fds, dev)
      && o.pool == p.(fds := p.fds[h := p.fds[h].(excl := false)])
  {
    assert EntryKept(p.fds[h], h, p.maxFd, p.fs);
    UnlockKeeps(p, h);
    TheOnlyHolder(p, h, dev);
  }

  /** So the device can be opened again. */
  lemma UnlockedCanBeOpened(p: Pool, h: nat, dev: nat, driver: Option<int>, flags: int, opening: Option<Opening>)
    requires Kept(p) && Holds(p, h, dev) && dev != 0 && FirstFree(p.fds, 0) >= 0
    requires opening.Some? ==> opening.value.status >= 0
    ensures Open(Ioctl(p, h, ExclusiveOff, driver).pool, Some(dev), flags, opening).rc >= 0
  {
    UnlockReleases(p, h, dev, driver);
    var q := Ioctl(p, h, ExclusiveOff, driver).pool;
    OpenKeeps(q, Some(dev), flags, opening);
    var k := FirstFree(p.fds, 0);
    assert q.fds[k].IsFree();
  }

  /** An unlock undoes the lock before it. */
  lemma UnlockUndoesLock(p: Pool, x: nat, d: Option<int>, e: Option<int>)
    requires Kept(p) && x < MAX_FD && p.fds[x].isDev && !p.fds[x].excl && Ioctl(p, x, ExclusiveOn, d).rc == 0
    ensures Ioctl(Ioctl(p, x, ExclusiveOn, d).pool, x, ExclusiveOff, e) == Outcome(p, 0, 0)
  {
    IoctlTouchesOnlyTheLock(p, x, ExclusiveOn, d);
    IoctlTouchesOnlyTheLock(Ioctl(p, x, ExclusiveOn, d).pool, x, ExclusiveOff, e);
    assert p.fds[x := p.fds[x].(excl := true)][x := p.fds[x]] == p.fds;
  }

  /** Why an open fails, and what it reports: the first of the four reasons that applies. */
  lemma OpenReports(p: Pool, target: Option<nat>, flags: int, driver: Option<Opening>)
    requires Kept(p) && (target.Some? ==> target.value != 0)
    ensures var o := Open(p, target, flags, driver);
      if target.None? then o.rc == -1 && o.errno == ENODEV && o.pool == p
      else if forall i :: 0 <= i < MAX_FD ==> !p.fds[i].IsFree() then o.rc == -1 && o.errno == EMFILE && o.pool == p
      else if !NobodyHolds(p.fds, target.value) then o.rc == -1 && o.errno == EACCES
      else if driver.Some? && driver.value.status < 0 then o.rc == -1 && o.errno == -driver.value.status
      else o.rc >= 0 && (driver.Some? ==> o.pool.fds[o.rc].priv == driver.value.priv)
  {
    OpenKeeps(p, target, flags, driver);
    var k := FirstFree(p.fds, 0);
    if k >= 0 && target.Some? {
      assert p.fds[k].IsFree();
      ScanIsComplete(p, k, target.value, flags);
      if target.value in p.fs {
        FileSystemsAreNotHeld(p, target.value);
      }
    }
  }

  /** A close reports what the driver's own close reports, and frees the descriptor whatever that is, unless it is a
      standard one. */
  lemma CloseReports(p: Pool, x: int, driver: Option<int>)
    requires x < |p.fds|
    ensures var o := Close(p, x, driver);
      && (x < 0 ==> o == Outcome(p, -1, EBADFD))
      && (x >= 0 ==> if driver.Some? && driver.value < 0 then o.rc == -1 && o.errno == -driver.value else o.rc == 0)
      && (x >= 0 ==> o.pool == p.(fds := o.pool.fds) && |o.pool.fds| == |p.fds|)
      && (x >= 0 ==> forall i :: 0 <= i < |p.fds| ==>
            if i == x > 2 then o.pool.fds[i].IsFree() else o.pool.fds[i] == p.fds[i])
  {
  }

  /** From power-up: open a device twice, and the first descriptor is granted the lock although the second uses it. */
  lemma SharedLock()
    ensures var p0 := Initial({});
            var p1 := Open(p0, Some(2), 0, None).pool;
            var p2 := Open(p1, Some(2), 0, None).pool;
            var o := Ioctl(p2, 3, ExclusiveOn, None);
            o.rc == 0 && Holds(o.pool, 3, 2) && o.pool.fds[4].dev == 2
  {
    var p0 := Initial({});
    OpenKeeps(p0, Some(2), 0, None);
    InitialIsKept({});
    assert p0.fds[3].IsFree() && FirstFree(p0.fds, 0) == 3;
    var o1 := Open(p0, Some(2), 0, None);
    assert NobodyHolds(p0.fds, 2);
    assert o1.rc == 3;
    var p1 := o1.pool;
    assert p1.fds[4].IsFree() && FirstFree(p1.fds, 0) == 4;
    OpenKeeps(p1, Some(2), 0, None);
    assert NobodyHolds(p1.fds, 2);
    var p2 := Open(p1, Some(2), 0, None).pool;
    assert p2.maxFd == 4;
    assert !UsedBelow(p2, 3);
  }

  /** Closing the holder of a device, which is to release it, does so exactly for a descriptor that is not a standard
      one. */
  lemma CloseReleasesExactlyAboveStandard(p: Pool, x: nat, dev: nat, driver: Option<int>)
    requires Kept(p) && Holds(p, x, dev)
    ensures NobodyHolds(Close(p, x, driver).pool.fds, dev) <==> x > 2
  {
    assert NobodyHolds(p.fds[x := p.fds[x].Freed()], dev) by {
      TheOnlyHolder(p, x, dev);
    }
  }

  lemma TheOnlyHolder(p: Pool, x: nat, dev: nat)
    requires Kept(p) && Holds(p, x, dev)
    ensures forall i :: 0 <= i < MAX_FD && i != x && p.fds[i].excl ==> p.fds[i].dev != dev
  {
    forall i | 0 <= i < MAX_FD && i != x && p.fds[i].excl
      ensures p.fds[i].dev != dev
    {
      if p.fds[i].dev == dev {
        AtMostOneHolder(p, i, x);
      }
    }
  }

  /** From power-up: send standard output to a device, lock the device, and close the descriptor.  Every call succeeds,
      and the device cannot be opened. */
  lemma StandardLockOutlivesClose(flags: int, driver: Option<Opening>)
    ensures var p := Redirect(Initial({}), 1, Some(2), 0, None);
            var lock := Ioctl(p, 1, ExclusiveOn, None);
            var close := Close(lock.pool, 1, None);
            lock.rc == 0 && close.rc == 0 && Holds(close.pool, 1, 2)
            && Open(close.pool, Some(2), flags, driver).rc == -1
  {
    var p0 := Initial({});
    InitialIsKept({});
    assert p0.fds[3].IsFree() && FirstFree(p0.fds, 0) == 3;
    RedirectKeeps(p0, 1, Some(2), 0, None);
    OpenKeeps(p0, Some(2), 0, None);
    assert NobodyHolds(p0.fds, 2);
    var p := Redirect(p0, 1, Some(2), 0, None);
    assert p.fds[1].isDev && !UsedBelow(p, 1);
    var lock := Ioctl(p, 1, ExclusiveOn, None);
    IoctlKeeps(p, 1, ExclusiveOn, None);
    HeldDevicesAreNotOpened(lock.pool, 1, Some(2), flags, driver);
  }

  // ---------------------------------------------------------------- the code, on the table it updates

  class FdList {
    var fds: array<Fd>
    var maxFd: int
    const fs: set<nat>

    ghost predicate Valid()
      reads this
    {
      fds.Length == MAX_FD && -1 <= maxFd < MAX_FD
    }

    ghost function State(): (p: Pool)
      reads this, fds
    {
      Pool(fds[..], maxFd, fs)
    }

    constructor (fs: set<nat>)
      ensures Valid() && fresh(fds) && State() == Initial(fs)
    {
      this.fs := fs;
      maxFd := -1;
      fds := new Fd[MAX_FD](i => Fd(if i < 3 then DEV_NULL else 0, 0, false, false, 0));
    }

    method GetFd(dev: nat) returns (rc: int)
      requires Valid()
      modifies this`maxFd, fds
      ensures Valid()
      ensures var k := FirstFree(old(fds[..]), 0);
              if k < 0 then rc == -EMFILE && State() == old(State())
              else rc == k && maxFd == Max(k, old(maxFd)) && fds[..] == old(fds[..])[k := old(fds[k]).(dev := dev)]
    {
      rc := -EMFILE;
      var i := 0;
      while i < MAX_FD
        invariant i <= MAX_FD && rc == -EMFILE
        invariant fds[..] == old(fds[..]) && maxFd == old(maxFd)
        invariant forall j :: 0 <= j < i ==> !old(fds[..])[j].IsFree()
      {
        if fds[i].dev == 0 {
          fds[i] := fds[i].(dev := dev);
          if i > maxFd {
            maxFd := i;
          }
          return i;
        }
        i := i + 1;
      }
    }

    method FileLocked(x: nat) returns (rc: int)
      requires Valid() && x < MAX_FD && 0 <= maxFd
      modifies fds
      ensures State() == old(State()).(fds := old(fds[..])[x := old(fds[x]).(isDev := true)])
      ensures rc == if HeldElsewhere(State(), x) then -EACCES else 0
    {
      fds[x] := fds[x].(isDev := true);
      ghost var now := fds[..];
      var i := 0;
      while i <= maxFd
        invariant 0 <= i <= maxFd + 1
        invariant fds[..] == now
        invariant forall j :: 0 <= j < i && j != x ==> !(now[j].dev == now[x].dev && now[j].excl)
      {
        if fds[i].dev == fds[x].dev && fds[i].excl && i != x {
          assert State().fds[i].excl;
          return -EACCES;
        }
        i := i + 1;
      }
      return 0;
    }

    method ReleaseFd(x: int)
      requires Valid() && x < MAX_FD
      modifies fds
      ensures State() == Released(old(State()), x)
    {
      if x > 2 {
        fds[x] := fds[x].(excl := false, isDev := false, flags := 0);
        fds[x] := fds[x].(dev := 0);
      }
    }

    method CallDriverOpen(x: nat, driver: Option<Opening>) returns (status: int)
      requires Valid() && x < MAX_FD
      modifies fds
      ensures State() == Asked(old(State()), x, driver).0 && status == Asked(old(State()), x, driver).1
    {
      if driver.Some? {
        fds[x] := fds[x].(priv := driver.value.priv);
        status := driver.value.status;
      } else {
        status := 0;
      }
    }

    /** `errno` is left alone, at what it was, when the call succeeds. */
    method OpenCall(target: Option<nat>, flags: int, driver: Option<Opening>, errno: int) returns (rc: int, err: int)
      requires Valid()
      modifies this`maxFd, fds
      ensures Valid()
      ensures var o := Open(old(State()), target, flags, driver);
              State() == o.pool && rc == o.rc && err == if rc < 0 then o.errno else errno
    {
      err := errno;
      var index := -1;
      var status := -ENODEV;
      if target.Some? {
        var dev := target.value;
        index := GetFd(dev);
        if index < 0 {
          status := index;
        } else {
          fds[index] := fds[index].(excl := false, isDev := false, flags := flags);
          var isafs := dev in fs;
          status := 0;
          if !isafs {
            status := FileLocked(index);
          }
          assert State() == Claimed(old(State()), index, dev, flags);
          if isafs || status >= 0 {
            status := CallDriverOpen(index, driver);
          }
        }
      }
      if status < 0 {
        ReleaseFd(index);
        return -1, -status;
      }
      return index, err;
    }

    method CloseCall(x: int, driver: Option<int>, errno: int) returns (rc: int, err: int)
      requires Valid() && x < MAX_FD && (x >= 0 ==> !fds[x].IsFree())
      modifies fds
      ensures var o := Close(old(State()), x, driver);
              State() == o.pool && rc == o.rc && err == if rc < 0 then o.errno else errno
    {
      if x >= 0 {
        var rval := if driver.Some? then driver.value else 0;
        ReleaseFd(x);
        if rval < 0 {
          return -1, -rval;
        }
        return 0, errno;
      }
      return -1, EBADFD;
    }

    method Lock(x: nat) returns (rc: int)
      requires Valid() && x < MAX_FD
      modifies fds
      ensures rc == if UsedBelow(old(State()), x) then -EACCES else 0
      ensures State() == if UsedBelow(old(State()), x) then old(State()) else WithLock(old(State()), x, true)
    {
      var i := 0;
      while i < maxFd
        invariant 0 <= i <= Max(0, maxFd)
        invariant fds[..] == old(fds[..])
        invariant forall j :: 0 <= j < i && j != x ==> fds[j].dev != fds[x].dev
      {
        if i != x && fds[i].dev == fds[x].dev {
          assert old(State()).fds[i].dev == old(State()).fds[x].dev;
          return -EACCES;
        }
        i := i + 1;
      }
      fds[x] := fds[x].(excl := true);
      return 0;
    }

    method Unlock(x: nat) returns (rc: int)
      requires Valid() && x < MAX_FD
      modifies fds
      ensures rc == 0 && State() == WithLock(old(State()), x, false)
    {
      fds[x] := fds[x].(excl := false);
      return 0;
    }

    method IoctlCall(x: int, req: Request, driver: Option<int>, errno: int) returns (rc: int, err: int)
      requires Valid() && x < MAX_FD && (x >= 0 ==> !fds[x].IsFree())
      modifies fds
      ensures var o := Ioctl(old(State()), x, req, driver);
              State() == o.pool && rc == o.rc && err == if rc < 0 then o.errno else errno
    {
      if x >= 0 {
        if fds[x].isDev && req == ExclusiveOn {
          rc := Lock(x);
        } else if fds[x].isDev && req == ExclusiveOff {
          rc := Unlock(x);
        } else if driver.Some? {
          rc := driver.value;
        } else {
          rc := -ENOTTY;
        }
      } else {
        rc := -EBADFD;
      }
      err := if rc < 0 then -rc else errno;
    }

    method OpenFd(x: nat, target: Option<nat>, flags: int, driver: Option<Opening>)
      requires Valid() && x < MAX_FD
      modifies this`maxFd, fds
      ensures Valid() && State() == Redirect(old(State()), x, target, flags, driver)
    {
      var was, err := OpenCall(target, flags, driver, 0);
      if was >= 0 {
        fds[x] := fds[was];
        ReleaseFd(was);
      }
    }

    /** Standard output first, then standard input, then standard error. */
    method IoRedirect(out: Option<nat>, inp: Option<nat>, err: Option<nat>, wr: int, rd: int,
                      a: Option<Opening>, b: Option<Opening>, c: Option<Opening>)
      requires Valid()
      modifies this`maxFd, fds
      ensures Valid()
      ensures var p1 := Redirect(old(State()), 1, out, wr, a);
              |p1.fds| == MAX_FD &&
              var p2 := Redirect(p1, 0, inp, rd, b);
              |p2.fds| == MAX_FD && State() == Redirect(p2, 2, err, wr, c)
    {
      OpenFd(1, out, wr, a);
      OpenFd(0, inp, rd, b);
      OpenFd(2, err, wr, c);
    }
  }
}
