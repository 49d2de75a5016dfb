/**
 * The engine-call sequence of the drop tool: create the environment, set its
 * table limit, open it, begin a write transaction, open the table, drop or
 * empty it, commit; on the way out, abort a transaction still held and close
 * the environment. The engine itself is an oracle that gives each call's
 * return code (0 is success).
 */
module DropLifecycle {
  import opened Wrappers
  import opened DropArgs

  const EXIT_SUCCESS := 0
  const EXIT_FAILURE := 1

  /** Arguments main passes to mdbx_env_set_maxdbs and mdbx_env_open (mode 0664 octal). */
  const MaxDbs := 2
  const DefaultMode := 0x1B4

  /**
   * Flag values main passes to mdbx_txn_begin and mdbx_dbi_open, from the
   * engine's public header: 0 is a read-write transaction, and 0 opens an
   * existing table without creating it.
   */
  const MDBX_TXN_READWRITE: bv32 := 0
  const MDBX_DB_DEFAULTS: bv32 := 0

  /** One call into the engine, with the arguments the tool passes other than handles. */
  datatype Call =
    | EnvCreate
    | EnvSetMaxDbs(dbs: int)
    | EnvOpen(path: string, flags: bv32, mode: int)
    | TxnBegin(flags: bv32)
    | DbiOpen(name: Option<string>, flags: bv32)
    | Drop(delete: bool)
    | TxnCommit
    | TxnAbort
    | EnvClose

  /** The engine's answer to each call: its return code. */
  type Engine = Call -> int

  /** Positions in Plan of the steps whose outcome decides the cleanup. */
  const CreateStep := 0
  const BeginStep := 3

  /** The forward steps, in the order main attempts them. */
  function Plan(cfg: Config): (p: seq<Call>)
    ensures |p| == 7 && p[CreateStep] == EnvCreate && p[BeginStep] == TxnBegin(MDBX_TXN_READWRITE)
  {
    [EnvCreate, EnvSetMaxDbs(MaxDbs), EnvOpen(cfg.envname, cfg.envflags, DefaultMode),
     TxnBegin(MDBX_TXN_READWRITE), DbiOpen(cfg.subname, MDBX_DB_DEFAULTS), Drop(cfg.delete), TxnCommit]
  }

  /** A step lets the run continue: its code is 0, or main ignores it (set_maxdbs). */
  predicate Passes(c: Call, rc: Engine)
  {
    c.EnvSetMaxDbs? || rc(c) == 0
  }

  /** Every step of steps passes. */
  predicate AllPass(steps: seq<Call>, rc: Engine)
  {
    forall i :: 0 <= i < |steps| ==> Passes(steps[i], rc)
  }

  /** The position of the first step that does not pass; |plan| when all pass. */
  function FailAt(plan: seq<Call>, rc: Engine): (k: nat)
    ensures k <= |plan|
    ensures AllPass(plan[..k], rc)
    ensures k < |plan| ==> !Passes(plan[k], rc)
  {
    if plan == [] then 0
    else if !Passes(plan[0], rc) then 0
    else
      var k := 1 + FailAt(plan[1..], rc);
      assert plan[..k] == [plan[0]] + plan[1..][..k - 1];
      k
  }

  /** The first failing position is determined by the outcomes of the steps. */
  lemma FailAtIs(plan: seq<Call>, rc: Engine, k: nat)
    requires k <= |plan| && AllPass(plan[..k], rc)
    requires k < |plan| ==> !Passes(plan[k], rc)
    ensures FailAt(plan, rc) == k
  {
    PassedPrefix(plan, rc, k);
    if k < |plan| {
      assert plan[..k + 1][k] == plan[k];
      PassedPrefix(plan, rc, k + 1);
    }
  }

  /** How many forward steps are attempted: up to and including the first that fails. */
  function Reached(plan: seq<Call>, rc: Engine): (n: nat)
    ensures n <= |plan|
  {
    var k := FailAt(plan, rc);
    if k < |plan| then k + 1 else k
  }

  /**
   * The calls made for forward steps plan: the attempted ones, then an abort
   * if the transaction step passed but a later one failed, then a close if
   * the create step passed.
   */
  function Trace(plan: seq<Call>, rc: Engine): seq<Call>
  {
    var k := FailAt(plan, rc);
    plan[..Reached(plan, rc)]
      + (if BeginStep < k < |plan| then [TxnAbort] else [])
      + (if CreateStep < k then [EnvClose] else [])
  }

  /** The calls main makes for configuration cfg. */
  function Transcript(cfg: Config, rc: Engine): seq<Call>
  {
    Trace(Plan(cfg), rc)
  }

  /** The value main returns for configuration cfg. */
  function ExitStatus(cfg: Config, rc: Engine): int
  {
    if FailAt(Plan(cfg), rc) == |Plan(cfg)| then EXIT_SUCCESS else EXIT_FAILURE
  }

  /**
   * Lines 142-186 of main. The labeled blocks stand for the labels txn_abort
   * and env_close, and `break` for `goto`; txn is true while the transaction
   * pointer is non-null.
   */
  method Execute(cfg: Config, rc: Engine) returns (status: int, trace: seq<Call>)
    ensures trace == Transcript(cfg, rc)
    ensures status == ExitStatus(cfg, rc)
  {
    ghost var plan := Plan(cfg);
    var r := rc(EnvCreate);
    trace := [EnvCreate];
    assert trace == plan[..1];
    if r != 0 {
      FailAtIs(plan, rc, 0);
      return EXIT_FAILURE, trace;
    }
    Advance(plan, rc, 0);
    trace := trace + [EnvSetMaxDbs(MaxDbs)];
    assert trace == plan[..2];
    Advance(plan, rc, 1);
    var txn := false;
    label envClose: {
      label txnAbort: {
        var open := EnvOpen(cfg.envname, cfg.envflags, DefaultMode);
        r := rc(open);
        trace := trace + [open];
        assert trace == plan[..3];
        if r != 0 {
          FailAtIs(plan, rc, 2);
          break envClose;
        }
        Advance(plan, rc, 2);
        r := rc(TxnBegin(MDBX_TXN_READWRITE));
        trace := trace + [TxnBegin(MDBX_TXN_READWRITE)];
        assert trace == plan[..4];
        if r != 0 {
          FailAtIs(plan, rc, 3);
          break envClose;
        }
        Advance(plan, rc, 3);
        txn := true;
        r := rc(DbiOpen(cfg.subname, MDBX_DB_DEFAULTS));
        trace := trace + [DbiOpen(cfg.subname, MDBX_DB_DEFAULTS)];
        assert trace == plan[..5];
        if r != 0 {
          FailAtIs(plan, rc, 4);
          break txnAbort;
        }
        Advance(plan, rc, 4);
        r := rc(Drop(cfg.delete));
        trace := trace + [Drop(cfg.delete)];
        assert trace == plan[..6];
        if r != 0 {
          FailAtIs(plan, rc, 5);
          break txnAbort;
        }
        Advance(plan, rc, 5);
        r := rc(TxnCommit);
        trace := trace + [TxnCommit];
        assert trace == plan[..7];
        if r != 0 {
          FailAtIs(plan, rc, 6);
          break txnAbort;
        }
        Advance(plan, rc, 6);
        FailAtIs(plan, rc, 7);
        txn := false;
      }
      if txn {
        trace := trace + [TxnAbort];
      }
    }
    trace := trace + [EnvClose];
    status := if r != 0 then EXIT_FAILURE else EXIT_SUCCESS;
  }

  /** One more passing step extends the passing prefix and the attempted calls. */
  lemma Advance(plan: seq<Call>, rc: Engine, n: nat)
    requires n < |plan| && AllPass(plan[..n], rc) && Passes(plan[n], rc)
    ensures AllPass(plan[..n + 1], rc)
    ensures plan[..n + 1] == plan[..n] + [plan[n]]
  {
    assert plan[..n + 1] == plan[..n] + [plan[n]];
  }

  // ---------------------------------------------------------------------
  // What the call sequence guarantees.

  /** No call occurs twice in steps. */
  predicate Distinct(steps: seq<Call>)
  {
    forall a, b :: 0 <= a < b < |steps| ==> steps[a] != steps[b]
  }

  /** Forward steps that Trace can tell apart from each other and from the cleanup calls. */
  predicate WellFormed(plan: seq<Call>)
  {
    Distinct(plan) && TxnAbort !in plan && EnvClose !in plan && BeginStep < |plan|
  }

  /** Each call of a sequence of distinct calls occurs in a prefix once or not at all. */
  lemma {:induction false} DistinctPrefixCount(steps: seq<Call>, n: nat, i: nat)
    requires Distinct(steps)
    requires n <= |steps| && i < |steps|
    ensures multiset(steps[..n])[steps[i]] == if i < n then 1 else 0
    decreases n
  {
    if n > 0 {
      assert steps[..n] == steps[..n - 1] + [steps[n - 1]];
      DistinctPrefixCount(steps, n - 1, i);
    }
  }

  /** The first i steps all pass exactly when the first failure is not before i. */
  lemma PassedPrefix(plan: seq<Call>, rc: Engine, i: nat)
    requires i <= |plan|
    ensures AllPass(plan[..i], rc) <==> i <= FailAt(plan, rc)
  {
    var k := FailAt(plan, rc);
    if i <= k {
      assert plan[..i] == plan[..k][..i];
    } else {
      assert plan[..i][k] == plan[k];
    }
  }

  /** The cleanup calls occur in Trace exactly as its last part says. */
  lemma CleanupCount(plan: seq<Call>, rc: Engine, x: Call)
    requires x !in plan
    ensures var k := FailAt(plan, rc);
            multiset(Trace(plan, rc))[x]
            == (if BeginStep < k < |plan| && x == TxnAbort then 1 else 0)
               + (if CreateStep < k && x == EnvClose then 1 else 0)
  {
    var n := Reached(plan, rc);
    assert x !in plan[..n] by {
      assert forall c :: c in plan[..n] ==> c in plan;
    }
  }

  /**
   * StepAttemptedOnce over any well-formed plan. It is stated for an abstract
   * plan so that the proof never unfolds the seven-call literal of Plan.
   */
  lemma TraceStep(plan: seq<Call>, rc: Engine, i: nat)
    requires WellFormed(plan) && i < |plan|
    ensures var t := Trace(plan, rc);
            && multiset(t)[plan[i]] == (if AllPass(plan[..i], rc) then 1 else 0)
            && (AllPass(plan[..i], rc) ==> i < |t| && t[i] == plan[i])
  {
    var k, n := FailAt(plan, rc), Reached(plan, rc);
    var cleanup := (if BeginStep < k < |plan| then [TxnAbort] else [])
                   + (if CreateStep < k then [EnvClose] else []);
    assert Trace(plan, rc) == plan[..n] + cleanup;
    assert plan[i] != TxnAbort && plan[i] != EnvClose;
    assert multiset(cleanup)[plan[i]] == 0;
    DistinctPrefixCount(plan, n, i);
    PassedPrefix(plan, rc, i);
  }

  /** The forward steps of main are well formed. */
  lemma PlanWellFormed(cfg: Config)
    ensures WellFormed(Plan(cfg))
  {
  }

  /**
   * Step i is attempted exactly once when every earlier step passed and never
   * otherwise, and then it is the i-th call: the steps run in the fixed order
   * of Plan, at most once each, and nothing after the first failing step is
   * attempted.
   */
  lemma StepAttemptedOnce(cfg: Config, rc: Engine, i: nat)
    requires i < |Plan(cfg)|
    ensures var t := Transcript(cfg, rc);
            && multiset(t)[Plan(cfg)[i]] == (if AllPass(Plan(cfg)[..i], rc) then 1 else 0)
            && (AllPass(Plan(cfg)[..i], rc) ==> i < |t| && t[i] == Plan(cfg)[i])
  {
    PlanWellFormed(cfg);
    TraceStep(Plan(cfg), rc, i);
  }

  /** The environment is closed exactly when it was created, and closing is the last call. */
  lemma CloseExactlyOnce(cfg: Config, rc: Engine)
    ensures var t := Transcript(cfg, rc);
            && multiset(t)[EnvClose] == (if rc(EnvCreate) == 0 then 1 else 0)
            && (rc(EnvCreate) == 0 ==> t[|t| - 1] == EnvClose)
            && (rc(EnvCreate) != 0 ==> t == [EnvCreate])
  {
    var plan := Plan(cfg);
    PlanWellFormed(cfg);
    CleanupCount(plan, rc, EnvClose);
    PassedPrefix(plan, rc, 1);
    assert plan[..1] == [EnvCreate];
  }

  /**
   * The transaction is aborted exactly once when it was begun and the commit
   * did not succeed, a failed commit included; never otherwise.
   */
  lemma AbortExactlyOnFailurePaths(cfg: Config, rc: Engine)
    ensures var plan := Plan(cfg);
            multiset(Transcript(cfg, rc))[TxnAbort]
            == if AllPass(plan[..BeginStep + 1], rc) && !AllPass(plan, rc) then 1 else 0
  {
    var plan := Plan(cfg);
    PlanWellFormed(cfg);
    CleanupCount(plan, rc, TxnAbort);
    PassedPrefix(plan, rc, BeginStep + 1);
    PassedPrefix(plan, rc, |plan|);
    assert plan[..|plan|] == plan;
  }

  /**
   * Seen from the trace: a transaction that began successfully is either
   * committed successfully or aborted, never both, and a failed commit is
   * still followed by an abort.
   */
  lemma TransactionResolved(cfg: Config, rc: Engine)
    ensures var t := Transcript(cfg, rc);
            var begun := TxnBegin(MDBX_TXN_READWRITE) in t && rc(TxnBegin(MDBX_TXN_READWRITE)) == 0;
            var committed := TxnCommit in t && rc(TxnCommit) == 0;
            && (begun <==> committed || TxnAbort in t)
            && !(committed && TxnAbort in t)
            && (TxnCommit in t && rc(TxnCommit) != 0 ==> TxnAbort in t)
  {
    PlanWellFormed(cfg);
    TraceTransaction(Plan(cfg), rc);
  }

  /**
   * TransactionResolved in terms of the first failing position, over any plan
   * with begin and commit at their places, so that the proof never unfolds
   * the seven-call literal of Plan.
   */
  lemma TraceTransaction(plan: seq<Call>, rc: Engine)
    requires WellFormed(plan) && |plan| == 7
    requires plan[BeginStep] == TxnBegin(MDBX_TXN_READWRITE) && plan[6] == TxnCommit
    ensures var t, k := Trace(plan, rc), FailAt(plan, rc);
            && (TxnBegin(MDBX_TXN_READWRITE) in t && rc(TxnBegin(MDBX_TXN_READWRITE)) == 0 <==> BeginStep < k)
            && (TxnCommit in t && rc(TxnCommit) == 0 <==> k == |plan|)
            && (TxnCommit in t ==> BeginStep < k)
            && (TxnAbort in t <==> BeginStep < k < |plan|)
  {
    var t, k := Trace(plan, rc), FailAt(plan, rc);
    TraceStep(plan, rc, BeginStep);
    TraceStep(plan, rc, 6);
    PassedPrefix(plan, rc, BeginStep);
    PassedPrefix(plan, rc, 6);
    CleanupCount(plan, rc, TxnAbort);
    assert k > BeginStep ==> Passes(plan[BeginStep], rc) by {
      if k > BeginStep {
        assert plan[..k][BeginStep] == plan[BeginStep];
      }
    }
    assert k > 6 ==> Passes(plan[6], rc) by {
      if k > 6 {
        assert plan[..k][6] == plan[6];
      }
    }
  }

  /** Every call of a trace is a forward step of the plan or one of the two cleanup calls. */
  lemma TraceCalls(plan: seq<Call>, rc: Engine, c: Call)
    requires c in Trace(plan, rc)
    ensures c in plan || c == TxnAbort || c == EnvClose
  {
    var n := Reached(plan, rc);
    if c in plan[..n] {
      var j :| 0 <= j < n && plan[..n][j] == c;
      assert plan[j] == c;
    }
  }

  /**
   * The transaction main begins is a read-write one, and the table is opened
   * by the configured name with no create flag, so the tool never creates a
   * table it was asked to drop or empty.
   */
  lemma OpensExistingTableOnly(cfg: Config, rc: Engine, c: Call)
    requires c in Transcript(cfg, rc)
    ensures c.TxnBegin? ==> c.flags == MDBX_TXN_READWRITE
    ensures c.DbiOpen? ==> c.name == cfg.subname && c.flags == MDBX_DB_DEFAULTS
  {
    TraceCalls(Plan(cfg), rc, c);
  }

  /** main succeeds exactly when every step it checks returned 0; otherwise it fails. */
  lemma ExitReflectsEveryStep(cfg: Config, rc: Engine)
    ensures ExitStatus(cfg, rc) == EXIT_SUCCESS || ExitStatus(cfg, rc) == EXIT_FAILURE
    ensures ExitStatus(cfg, rc) == EXIT_SUCCESS <==> AllPass(Plan(cfg), rc)
  {
    var plan := Plan(cfg);
    PassedPrefix(plan, rc, |plan|);
    assert plan[..|plan|] == plan;
  }

  /** The code returned by mdbx_env_set_maxdbs changes neither the calls nor the result. */
  lemma SetMaxDbsResultIgnored(cfg: Config, rc1: Engine, rc2: Engine)
    requires forall c: Call :: !c.EnvSetMaxDbs? ==> rc1(c) == rc2(c)
    ensures Transcript(cfg, rc1) == Transcript(cfg, rc2)
    ensures ExitStatus(cfg, rc1) == ExitStatus(cfg, rc2)
  {
    var plan := Plan(cfg);
    var k := FailAt(plan, rc1);
    assert forall c: Call :: Passes(c, rc1) == Passes(c, rc2);
    FailAtIs(plan, rc2, k);
  }
}
