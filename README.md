# Tether process helpers and port-layer handles, in Dafny

This project models two pieces of a hypervisor-based container platform in
which every container is a small VM supervised by a PID-1 process, the
*tether*:

- **Guest-side process helpers of the tether** (`lib/tether/tether_linux.go`):
  packing a device major/minor pair into one number (`Mkdev`), resolving a
  session's executable (`findExecutable`, `lookPath`), and the drain loop of
  the child reaper, which collects exited processes and correlates them with
  the sessions they were launched for.
- **Handles of the port layer** (`lib/portlayer/exec/handle.go`): a handle
  stages a change to a container's VM configuration; its spec is set at most
  once, `Commit` is idempotent, and a process-wide registry of at most 1000
  handles, keyed by 32 hex digits, finds handles until they are committed.

Files:

- `wrappers.dfy` — `Option`, `Result` and `Outcome`.
- `tether_mkdev.dfy` — module `TetherMkdev`: `Mkdev` on 64-bit patterns and
  its inverses `Major`/`Minor`.
- `tether_lookpath.dfy` — module `TetherLookPath`: `FindExecutable`, the
  method `LookPath` with its loops, proved equal to the case-by-case
  definition `Resolve`, and the properties of `Resolve`.
- `tether_reaper.dfy` — module `TetherReaper`: the class `Tether` with its
  pid-to-session table and the method `ReapChildren` (the drain loop),
  proved equal to the function `Drain` over the batch of Wait4 results, and
  the properties of `Drain`. `ReapOnce` is a small client.
- `exec_handle.dfy` — module `ExecHandle`: handle keys, the registry's LRU
  cache as a value `Lru`, the classes `Handle` and `HandleRegistry`, and a
  client `CommitLifecycle`.

Modelling choices:

- Go's `int` in `Mkdev` is a 64-bit two's-complement value; the model
  works on its bit pattern (`bv64`), on which `<<`, `&` and `|` agree.
- `os.Stat` is a parameter `fs` from a path to the file's mode bits or to
  the error Stat reports; the mode is Go's 32-bit `FileMode`, whose top bit
  is the directory bit.
- `filepath.SplitList` and `strings.Split` are modelled with their library
  behaviour: the empty string splits into no elements at all, and every
  colon separates two (possibly empty) elements.
- The wait results of one SIGCHLD notification are a finite sequence given
  to `ReapChildren`. `removeChildPid` is map removal; `handleSessionExit`
  is recorded by appending the session to `exitHandled`.
- The registry's `lru.Cache` is the value `Lru`: the entries and their keys
  from least to most recently used. `Add` refreshes an existing key or
  appends a new one and evicts the least recently used entry beyond 1000;
  a hit in `Get` makes the key most recent; `Remove` forgets the key.
- Calls into code outside these two files are parameters: the container
  commit's error, the configuration encoder, the DNS lookup result, the
  guest spec generator's result, the creation time and the random bytes.

The comment on `lookPath` (lib/tether/tether_linux.go:111-113) calls it a
modification of the Unix `os/exec` lookup. The model follows the code,
which differs from `os/exec.LookPath` in two visible ways:

- `os/exec` accepts only files that are not directories and have an execute
  bit, like this code, but this code additionally tries names starting with
  `./` or `../` against the session's working directory rather than the
  tether's own.
- An empty element inside a non-empty value means the current directory
  (`PATH=:/bin` tries `./foo` first), but an empty value (`PATH=`) or no
  `PATH=` entry in the session's environment searches nothing at all; the
  tether's own `PATH` is never consulted.

## Model

| member | source | states |
|---|---|---|
| `TetherMkdev.Mkdev` | lib/tether/tether_linux.go:33-35 | `(major << 8) \| (minor & 0xff) \| ((minor & 0xfff00) << 12)` on 64-bit bit patterns; for any arguments the low byte is the minor's low byte and `Major` of the result is the major's low 12 bits |
| `TetherMkdev.MkdevRoundTrip` | lib/tether/tether_linux.go:33-35 | for a 12-bit major and a 20-bit minor, the low byte of the packed number is the minor's low byte, `(dev >> 8) & 0xfff` gives back the major, the low byte or-ed with `(dev >> 12) & 0xfff00` gives back the minor, and the result fits in 32 bits |
| `TetherMkdev.MkdevFromParts` | lib/tether/tether_linux.go:33-35 | every 32-bit device number is the packing of its own major and minor, which are within the bounds |
| `TetherMkdev.MkdevInjective` | lib/tether/tether_linux.go:33-35 | within the bounds, distinct major/minor pairs pack to distinct numbers |
| `TetherMkdev.MkdevCollidesOutsideBounds` | lib/tether/tether_linux.go:33-35 | the bounds are needed: major 4096 with minor 0 packs like major 0 with minor 256 |
| `TetherLookPath.FindExecutable` | lib/tether/tether_linux.go:100-109 | succeeds exactly when the path exists, is not a directory and has one of the 0111 bits; a Stat failure is returned unchanged, otherwise the error is the permission error |
| `TetherLookPath.LookPath` | lib/tether/tether_linux.go:114-160 | the method with its two loops (first `PATH=` entry, then the PATH elements) returns exactly the result `Resolve` defines |
| `TetherLookPath.RelativeNameUsesWorkingDir` | lib/tether/tether_linux.go:118-125 | a `./` or `../` name resolves only to `dir/file`, succeeds iff that candidate is executable, fails with findExecutable's error, and the environment (PATH included) is irrelevant |
| `TetherLookPath.QualifiedNameCheckedAsGiven` | lib/tether/tether_linux.go:128-134 | any other name containing `/` comes back unchanged iff it is executable, fails with findExecutable's error otherwise, and neither PATH nor the working directory matters |
| `TetherLookPath.FirstPathEntryWins` | lib/tether/tether_linux.go:137-145 | the value searched is the first environment entry starting with `PATH=`, without that prefix; later `PATH=` entries are ignored |
| `TetherLookPath.NoPathEntry` | lib/tether/tether_linux.go:137-145 | without any `PATH=` entry the value searched is empty |
| `TetherLookPath.EmptyPathFindsNothing` | lib/tether/tether_linux.go:145-159 | a bare name with an empty or missing PATH fails with `"<file>: no such executable in PATH"` |
| `TetherLookPath.BareNameIgnoresWorkingDir` | lib/tether/tether_linux.go:136-159 | a bare name is searched through the session's PATH elements and the working directory plays no part |
| `TetherLookPath.SearchPathFindsFirst` | lib/tether/tether_linux.go:148-157 | a successful search returns `d + "/" + file` for some PATH element `d` (the empty element read as `.`) whose candidate is executable, and every earlier candidate failed |
| `TetherLookPath.FirstExecutableIsFound` | lib/tether/tether_linux.go:148-157 | conversely, the first executable candidate in PATH order is the result |
| `TetherLookPath.SearchPathFails` | lib/tether/tether_linux.go:148-159 | the search fails iff no candidate is executable, and then the error is always `"<file>: no such executable in PATH"` |
| `TetherLookPath.JoinSplit` | lib/tether/tether_linux.go:147 | splitting PATH loses nothing: joining the elements with `:` gives the value back, and no element holds a `:` |
| `TetherLookPath.SplitJoin` | lib/tether/tether_linux.go:147 | splitting a `:`-joined list of colon-free elements gives the elements back |
| `TetherLookPath.BinFooScenario` | lib/tether/tether_linux.go:136-159 | with `PATH=/usr/bin:/bin` and `foo` executable only in `/bin`, `foo` resolves to `/bin/foo` |
| `TetherLookPath.DotFooScenario` | lib/tether/tether_linux.go:118-125 | in the same setting `./foo` is looked for in the working directory only and fails with Stat's error |
| `TetherReaper.Tether.ReapChildren` | lib/tether/tether_linux.go:57-85 | the drain loop leaves the table, the handoffs to handleSessionExit and every correlated session's exit status exactly as `Drain` of the batch describes; nothing else changes |
| `TetherReaper.Tether.RemoveChildPid` | lib/tether/tether_linux.go:73 | the pid leaves the table and its session is returned, with `ok` true iff it was there |
| `TetherReaper.Tether.HandleSessionExit` | lib/tether/tether_linux.go:76 | each call hands one session to the exit callback |
| `TetherReaper.DrainRemovesReaped` | lib/tether/tether_linux.go:64-81 | after a drain the table has lost exactly the pids reported as exited in the batch; every other entry is unchanged |
| `TetherReaper.DrainHandsOffOnce` | lib/tether/tether_linux.go:73-76 | every handoff is for a pid of the table with its own session and the reported code; each correlated pid is handed off exactly once if reported as exited and never otherwise |
| `TetherReaper.DrainSetsExitStatus` | lib/tether/tether_linux.go:73-76 | when each session has one pid, a session's exit status after the drain is the code reported for its pid, or unchanged if its pid did not exit |
| `TetherReaper.ReapedPidIgnoredLater` | lib/tether/tether_linux.go:73-81 | a pid that was reaped is gone from the table, so a later report for it makes no handoff and touches no session |
| `TetherReaper.IgnoredResult` | lib/tether/tether_linux.go:64-84 | a non-exit status change, an exit of a pid not in the table (an adopted zombie) and a Wait4 error other than ECHILD change neither the table nor any session |
| `TetherReaper.SignalledChildStaysCorrelated` | lib/tether/tether_linux.go:59-70 | a child whose Wait4 status is not an exit (a death by signal, with the flags the reaper passes) stays in the table and is never handed to handleSessionExit |
| `TetherReaper.DrainStopsAtEnd` | lib/tether/tether_linux.go:59-63 | the batch ends at a result with pid 0 or ECHILD: nothing after it is looked at |
| `TetherReaper.DrainContinues` | lib/tether/tether_linux.go:57-85 | results before the end of the batch are all processed: draining two stretches in a row, the first without an end, is draining them joined |
| `ExecHandle.HexEncode` | lib/portlayer/exec/handle.go:76 | `hex.EncodeToString` writes two characters per byte; the lemmas below state that they are lower-case hex digits that decode back to the bytes |
| `ExecHandle.HexRoundTrip` | lib/portlayer/exec/handle.go:73-77 | a handle key decodes back to the random bytes it was made from |
| `ExecHandle.HexEncodeDigits` | lib/portlayer/exec/handle.go:73-77 | a key consists of lower-case hex digits only |
| `ExecHandle.HexEncodeInjective` | lib/portlayer/exec/handle.go:73-77 | different random bytes give different keys |
| `ExecHandle.NewHandleKey` | lib/portlayer/exec/handle.go:56-77 | a key has 32 characters, all hex digits, and decodes to the 16 random bytes |
| `ExecHandle.Lru.Add` | lib/portlayer/exec/handle.go:91 | `lru.Add` makes the key the most recently used one, grows the recency list by at most one, adds no key but `key`, and leaves every other surviving key's value unchanged |
| `ExecHandle.Lru.Touch` | lib/portlayer/exec/handle.go:100 | a hit in `lru.Get` keeps every entry and makes the key the most recently used one |
| `ExecHandle.Lru.Remove` | lib/portlayer/exec/handle.go:111 | after `lru.Remove` the key is not found and every other key is found as before |
| `ExecHandle.AddProperties` | lib/portlayer/exec/handle.go:57-94 | adding to the registry keeps it within 1000 entries and makes the handle retrievable under its key; no other key changes its handle, and only the least recently used one can be evicted, only when the registry was full |
| `ExecHandle.RemoveProperties` | lib/portlayer/exec/handle.go:107-112 | after removing a key it is not found, and every other key is found as before |
| `ExecHandle.TouchProperties` | lib/portlayer/exec/handle.go:100 | a lookup hit only makes the key most recently used |
| `ExecHandle.NeverAddedNeverFound` | lib/portlayer/exec/handle.go:96-112 | a key that no add ever named is not found, whatever adds, lookups and removals happened |
| `ExecHandle.HandleRegistry.constructor` | lib/portlayer/exec/handle.go:59-61 | the registry starts empty |
| `ExecHandle.HandleRegistry.NewHandle` | lib/portlayer/exec/handle.go:80-94 | the new handle is fresh and uncommitted, has no spec and the container's configuration, is keyed by the hex form of the random bytes, and is registered under that key |
| `ExecHandle.HandleRegistry.GetHandle` | lib/portlayer/exec/handle.go:96-105 | returns the handle registered under the key, or null if there is none |
| `ExecHandle.HandleRegistry.RemoveHandle` | lib/portlayer/exec/handle.go:107-112 | the key is no longer registered |
| `ExecHandle.Handle.constructor` | lib/portlayer/exec/handle.go:81-86 | a new handle holds its key and container, a copy of the container's configuration, no spec and is not committed |
| `ExecHandle.Handle.IsCommitted` | lib/portlayer/exec/handle.go:114-116 | reports whether a commit of the handle has succeeded |
| `ExecHandle.Handle.SetSpec` | lib/portlayer/exec/handle.go:118-136 | a set spec is never replaced: a second non-nil spec is refused with "spec is already set" and nil is accepted as a no-op; on an unset handle the spec becomes the given one, or a fresh empty one for nil |
| `ExecHandle.Handle.Commit` | lib/portlayer/exec/handle.go:142-161 | committing a committed handle returns nil and changes nothing; otherwise the handle gets a spec if it had none, the encoded configuration is appended to it, and on container success the handle becomes committed and leaves the registry, on failure the error is returned, it stays uncommitted and registered |
| `ExecHandle.Handle.SetState` | lib/portlayer/exec/handle.go:163-166 | the handle records the given state |
| `ExecHandle.Handle.Create` | lib/portlayer/exec/handle.go:168-230 | a handle with a spec is refused with "spec already set" and left untouched; otherwise the metadata stamped with the creation time replaces the configuration, a failed, empty or multiple lookup of management.localhost is an error without a spec, and the guest spec becomes the handle's spec |

## Left out

- `establishPty` (pseudo-terminal allocation and the two copy goroutines): I/O and concurrency.
- Signal registration, the goroutine and channel of `childReaper`, `stopReaper`, and the Wait4 system call itself: the model drains a given finite sequence of Wait4 results. The `defer recover()` around the loop is not modelled either.
- Go's decoding of the raw wait status word: a result is either an exit with its code or a change that is not an exit. With WNOHANG and no WUNTRACED (lib/tether/tether_linux.go:59) the latter is a death by signal; the loop skips it, so that pid stays in the table and its session never reaches handleSessionExit (`SignalledChildStaysCorrelated`).
- The bodies of `removeChildPid` and `handleSessionExit`, which this file only calls: map removal and a recorded callback.
- The logging calls and `trace` calls: they do not affect state.
- `Handle.String`: it returns the key, which the model reads as the field `key`.
- `Handle.Create`: the guest spec configuration it builds (2 CPUs, 2048 MB, the `tcp://<ip>:2377` connector, datastore paths, network name) is not modelled; the guest spec generator's result is a parameter. Building that configuration can panic at lib/portlayer/exec/handle.go:212-214: `strings.Split(...)[1]` when the network reference holds no `-`, and the `sess.Datastore` calls. Such a panic happens after the configuration was replaced and before the generator runs; the model does not represent it, so `Create`'s success case (one address found, generator succeeded) assumes no panic.
- `Handle.Commit`: the configuration encoder and `Container.Commit` are parameters; anything `Container.Commit` does to the handle itself is not modelled.
- `handlesLock` and concurrent use of the registry: every registry operation is one atomic step here.
- `metadata.ExecutorConfig` is reduced to the ID, name and creation time this file touches; a VM configuration spec is reduced to its extra configuration.
- Error messages are constructors of `Error`; the Go formatting of the IP list in the multiple-address error is not modelled.
