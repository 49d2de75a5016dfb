# mdbx_drop: a verified model of the table drop/empty command

`mdbx_drop` is the libmdbx command that empties one table of a store
(keeps the table, removes its entries) or, with `-d`, deletes the table
itself, in a single write transaction. This project models the two pieces
of logic the command owns, both in `main` of `src/mdbx_drop.c`, and proves
what they promise:

- **Argument interpretation.** The `getopt` loop over the option string
  `"ds:nV"` updates `delete` (initially false), `envflags` (initially
  `MDBX_ACCEDE`, with `MDBX_NOSUBDIR` or-ed in by `-n`) and `subname`
  (initially null, meaning the main table; set by `-s name`). `-V` ends the
  process with success on the spot. Anything else option-like, a missing
  `-s` value, fewer than two arguments, or anything but exactly one
  remaining argument (the store path) ends in `usage()`, which exits with
  failure. Modelled by `DropArgs.ParseArgs`, a method with the loop and
  the three variables, proved against the function `DropArgs.Parse`.
  The lemmas relate `Parse` to `Render`, which spells a list of switches
  as arguments. With these lemmas, every outcome is pinned down in both
  directions: the run case, the `-V` case and the usage cases.
- **Engine-call sequencing.** `mdbx_env_create`, `mdbx_env_set_maxdbs`,
  `mdbx_env_open`, `mdbx_txn_begin`, `mdbx_dbi_open`, `mdbx_drop` and
  `mdbx_txn_commit` are called in that order. The cleanup labels
  `txn_abort:` (abort while `txn` is non-null) and `env_close:` follow.
  The process returns success exactly when the final `rc` is 0.
  `DropLifecycle.Execute` mirrors this: labeled blocks stand for the labels,
  `break` for `goto`, and a boolean `txn` for the transaction pointer,
  which is cleared after a successful commit. It returns the list of engine
  calls it made. The engine is an input: a function from each call (with
  its arguments) to the return code it gets. Calls returning 0 succeed.
  `Execute` is proved equal to `Transcript`, a declarative description
  (the forward steps up to the first failure, then the cleanup calls), and
  the lemmas state the resource and exit-code guarantees about
  `Transcript`.

`DropTool.ToolMain` puts the two together as `main`.

Modules: `Wrappers` (Option), `Getopt` (the simplified `getopt(3)` the loop
calls), `DropArgs`, `DropLifecycle`, `DropTool`.

Modelling assumptions:

- getopt is simplified. Each option is its own argument, exactly `-x`. An
  option whose letter is followed by `:` in the option string takes the
  next argument as its value. The first argument that is not option-like
  (not `-` plus at least one character) ends the options, as POSIX getopt
  does.
- Flag values come from the engine's public header, which is not part of
  this model: `MDBX_ACCEDE = 0x40000000` and `MDBX_NOSUBDIR = 0x4000`. The
  flags 0 passed to `mdbx_txn_begin` and `mdbx_dbi_open` (lines 156 and 162)
  are named `MDBX_TXN_READWRITE` and `MDBX_DB_DEFAULTS`. The proofs only use
  them as fixed bit patterns.
- The environment mode 0664 (octal) is written `0x1B4`.
- The usage line printed by `usage()` advertises `-q`, but the option
  string has no `q`. The model follows the code: `-q` leads to `usage()`
  (`DropArgs.UnknownOptionRejected`).
- A failed `mdbx_txn_commit` is still followed by `mdbx_txn_abort`. The
  jump to `txn_abort:` happens before line 178 clears `txn`. The engine may
  already have ended the transaction when the commit fails, and the tool
  calls `mdbx_txn_abort` on it anyway. The model follows the code
  (`DropLifecycle.TransactionResolved`).

## Model

| member | source | states |
|---|---|---|
| `DropArgs.OptStringLetters` | src/mdbx_drop.c:89 | `"ds:nV"` declares exactly the letters d, s, n, V, and only s takes a value. |
| `DropArgs.ParseArgs` | src/mdbx_drop.c:76-120 | The option loop over `delete`, `envflags` and `subname`, followed by the positional check, gives exactly `Parse(argv)`. Fewer than two arguments give usage. A run's store path is the last argument (line 135). |
| `DropArgs.LastSubname` | src/mdbx_drop.c:111-113 | The table name chosen by `-s`: None exactly when no `-s` is given, otherwise the value of the last `-s`. |
| `DropArgs.AfterSummary` | src/mdbx_drop.c:105-113 | Consuming a list of switches one case at a time, in order, amounts to: `delete` set iff `-d` occurs, `MDBX_NOSUBDIR` or-ed into the flags iff `-n` occurs (a repeated `-n` changes nothing more), and `subname` the value of the last `-s`, left as it was when there is none. |
| `DropArgs.ScanRender` | src/mdbx_drop.c:89-117 | The loop consumes any well-formed list of switches without `-V` in one go. It leaves `delete` set iff `-d` occurred, `NOSUBDIR` or-ed into the flags iff `-n` occurred, and `subname` set to the last `-s` value. |
| `DropArgs.RunRoundTrip` | src/mdbx_drop.c:76-120 | Switches without `-V`, followed by one non-option path, configure a run equal to `Configure`. So `delete` is true iff `-d` is present. `envflags` is `MDBX_ACCEDE`, plus `MDBX_NOSUBDIR` iff `-n` is present. `subname` is the last `-s` value or none. The path is that argument. |
| `DropArgs.RunShape` | src/mdbx_drop.c:89-120 | Converse of `RunRoundTrip`. Every command line that configures a run is such a list of switches plus one non-option path, and its configuration is `Configure` of them. |
| `DropArgs.VersionShortCircuits` | src/mdbx_drop.c:91-104 | `-V` after well-formed switches gives success whatever follows. Later arguments, invalid ones included, and the positional count are never examined. |
| `DropArgs.VersionShape` | src/mdbx_drop.c:89-104 | Converse of `VersionShortCircuits`. The version outcome arises only from well-formed switches without `-V`, then `-V`, then anything. So an invalid option before `-V` still fails first. |
| `DropArgs.UnknownOptionRejected` | src/mdbx_drop.c:114-115 | An option-like argument other than `-d`, `-n`, `-V`, `-s` after well-formed switches (for instance `-q`) leads to usage. |
| `DropArgs.MissingSubnameRejected` | src/mdbx_drop.c:111-115 | A trailing `-s` with no table name leads to usage. |
| `DropArgs.OnePositionalRequired` | src/mdbx_drop.c:119-120 | After the switches, no remaining argument, or two or more remaining arguments, lead to usage. |
| `DropLifecycle.FailAt` | src/mdbx_drop.c:142-177 | The position of the first forward step whose return code stops the run. Every earlier step passed, and the step at that position did not. The value is the number of steps when all pass. Only set_maxdbs counts as passing whatever it returns. |
| `DropLifecycle.Execute` | src/mdbx_drop.c:142-186 | The goto-structured sequence makes exactly the calls of `Transcript` and returns `ExitStatus`. |
| `DropLifecycle.StepAttemptedOnce` | src/mdbx_drop.c:142-177 | Forward step i (create, set_maxdbs, open with the configured path, flags and mode, begin, dbi_open with the configured name, drop with the configured `delete`, commit). It is called once, as the i-th call, when every earlier step passed. Otherwise it is not called at all. So the order is fixed, each step runs at most once, and nothing after the first failure is attempted. |
| `DropLifecycle.CloseExactlyOnce` | src/mdbx_drop.c:142-146 | `mdbx_env_close` is called exactly once if `mdbx_env_create` returned 0, and it is then the last call (lines 153, 159, 183-184). If create failed, it is never called and create is the only call. |
| `DropLifecycle.AbortExactlyOnFailurePaths` | src/mdbx_drop.c:165-182 | `mdbx_txn_abort` is called exactly once if create, open and begin passed but some later step (dbi_open, drop or commit) failed. Otherwise it is never called. |
| `DropLifecycle.OpensExistingTableOnly` | src/mdbx_drop.c:156-162 | Every `mdbx_txn_begin` in the trace asks for a read-write transaction (flags 0). Every `mdbx_dbi_open` names the configured table and passes flags 0, with no create flag, so the tool never creates the table it drops or empties. |
| `DropLifecycle.TransactionResolved` | src/mdbx_drop.c:156-182 | A transaction whose begin returned 0 is either committed with 0 or aborted, never both. A failed commit is followed by an abort. |
| `DropLifecycle.ExitReflectsEveryStep` | src/mdbx_drop.c:186 | The result is `EXIT_SUCCESS` or `EXIT_FAILURE`. It is `EXIT_SUCCESS` exactly when every checked step returned 0, so any nonzero `rc` gives failure (lines 143-145). |
| `DropLifecycle.SetMaxDbsResultIgnored` | src/mdbx_drop.c:148 | Two engines that differ only in what `mdbx_env_set_maxdbs` returns produce the same calls and the same result. |
| `DropTool.ToolMain` | src/mdbx_drop.c:71-187 | usage makes no engine call and fails. `-V` makes no engine call and succeeds. A run makes exactly `Transcript`'s calls and returns `ExitStatus`. Success happens exactly for `-V` or for a run whose checked steps all returned 0. The engine is touched only for a run. |

## Left out

- Signal handling (lines 33-46 and 122-133) is not modelled. It is asynchronous, and nothing reads the `user_break` flag it sets.
- Printed text is not modelled: the version report (lines 92-103), the banner (lines 136-140), the `error()` messages and `mdbx_strerror` (lines 65-69). They are output only. `quiet` is never set true, so it is not a variable of the model.
- The second usage message (lines 55-62) is not modelled. It follows an unconditional `exit` and can never run.
- The engine's internals (b-tree, MVCC, locking, file format) are not modelled. The engine is foreign code and appears only through its return codes. So the state of the table after a drop is not modelled either.
- The handles `env`, `txn` and `dbi` are not modelled as values, and neither is the null parent transaction passed to `mdbx_txn_begin` (line 156). Their pointers are foreign state. Each call is recorded in the trace with every other argument, the constant flags of `mdbx_txn_begin` and `mdbx_dbi_open` included.
- The return codes of `mdbx_txn_abort` and `mdbx_env_close` are not used: the code ignores them.
- Full getopt behaviour is not modelled: GNU permutation of arguments, clustered flags such as `-dn`, values attached as in `-sname`, the `--` terminator, and the `optarg`/`optopt` globals. The simplified getopt reports clustered and attached forms as unknown options. Without permutation, scanning stops at the first non-option argument, so an option written after the store path is never scanned; the positional check then sends the line to usage (`DropArgs.OnePositionalRequired`). The real getopt accepts all three forms. `--` ends up in usage too.
- The command line is taken as Dafny strings, not C strings. `argc` is the length of the sequence.
- The Windows and POSIX `#ifdef` branches and the MSVC pragmas are not modelled. Apart from the signal and console handlers, the branches choose which getopt the loop calls: the platform one, or `wingetopt.h` on Windows (lines 30-31). The simplified getopt stands for both.
