/** Safety over whole runs: what holds in every state that any interleaving, failure and crash can reach. */
module Safety {
  import opened Text
  import opened Scanner
  import opened Stripper
  import opened SqlStatements
  import opened Checksum
  import opened Database
  import opened Harmless
  import opened Runner
  import opened RunLaws
  import opened Interleaving

  // ----- atomicity and mutual exclusion

  /** Each committed transaction wrote one ledger row, and the ledger lists them in commit order. */
  ghost predicate OneRowEach(commits: seq<Transaction>) {
    && |RowsOf(commits)| == |commits|
    && forall i :: 0 <= i < |commits| ==> commits[i].rows == [RowsOf(commits)[i]]
  }

  lemma {:induction false} RowsAlign(commits: seq<Transaction>)
    requires forall i :: 0 <= i < |commits| ==> |commits[i].rows| == 1
    ensures OneRowEach(commits)
    decreases |commits|
  {
    if commits != [] {
      var n := |commits| - 1;
      RowsAlign(commits[..n]);
      assert commits[n].rows == [commits[n].rows[0]];
    }
  }

  /** The process is inside the body whose ledger row it will write next. */
  ghost predicate BeforeInsert(p: Process) {
    p.pc == Working && p.k < |p.todo|
  }

  /**
   * Whatever the interleaving, whichever queries fail and processes crash, and whatever the
   * bodies do to the transaction: no name is recorded twice, at most one process is past the
   * lock, and no insert collides. If, besides, every file that can still be carried out at
   * the start is harmless, what is committed is, transaction by transaction, all the work of
   * one migration file together with its ledger row.
   */
  lemma {:induction false} SafeOverAllRuns(hash: string -> string, s0: System, actions: seq<Action>)
    requires WellFormed(hash, s0) && Initial(s0)
    ensures var s := Reach(hash, s0, actions);
            && DistinctRows(Ledger(s))
            && (forall x, y ::
                  0 <= x < |s.procs| && 0 <= y < |s.procs| && Critical(s.procs[x].pc) && Critical(s.procs[y].pc)
                  ==> x == y)
            && (forall x :: 0 <= x < |s.procs| && BeforeInsert(s.procs[x])
                  ==> !Collides(s.base, Session(s.commits, s.procs[x].open), s.procs[x].todo[s.procs[x].k].name))
    ensures var s := Reach(hash, s0, actions);
            ExecutablesHarmless(hash, s0) ==>
              (forall i :: 0 <= i < |s.commits| ==> IsWholeFile(hash, s, s.commits[i])) && OneRowEach(s.commits)
  {
    hide Body, Next, MustHold, HasRow, LedgerRows, ToMigration, Whole, ExecutablesHarmless, Reach;
    InitialInv(hash, s0);
    StepsKeepInv(hash, s0, actions);
    var s := Reach(hash, s0, actions);
    forall x | 0 <= x < |s.procs| && BeforeInsert(s.procs[x])
      ensures !Collides(s.base, Session(s.commits, s.procs[x].open), s.procs[x].todo[s.procs[x].k].name)
    {
      NoRowInNothing(s.procs[x].todo[s.procs[x].k].name);
    }
    if ExecutablesHarmless(hash, s0) {
      StepsKeepWhole(hash, s0, actions);
      WholeHasOneRow(hash, s);
    }
  }

  lemma {:induction false} WholeHasOneRow(hash: string -> string, s: System)
    requires Whole(hash, s)
    ensures (forall i :: 0 <= i < |s.commits| ==> IsWholeFile(hash, s, s.commits[i])) && OneRowEach(s.commits)
  {
    hide Asks, Strip, MigrationChecksum;
    forall i | 0 <= i < |s.commits|
      ensures |s.commits[i].rows| == 1
    {
      assert IsWholeFile(hash, s, s.commits[i]);
    }
    RowsAlign(s.commits);
  }

  // ----- the ledger stays an initial part of the directory

  ghost predicate Planned(p: Process) {
    p.pc in {Ready, Working, Inserted}
  }

  /** All processes read the same directory, and the ledger records its first `n` files. */
  ghost predicate PrefixInv(hash: string -> string, dir: seq<File>, s: System, n: nat) {
    && LedgerIsPrefix(hash, dir, Ledger(s), n)
    && forall r :: 0 <= r < |s.procs| ==> PlanIsRest(dir, s.procs[r], n)
  }

  ghost predicate PlanIsRest(dir: seq<File>, p: Process, n: nat) {
    p.dir == dir && (Planned(p) && n <= |dir| ==> Position(p) <= n && p.todo == dir[n - Position(p)..])
  }

  lemma {:induction false} PrefixStep(hash: string -> string, dir: seq<File>, s: System, a: Action, n: nat)
    returns (n': nat)
    requires WellFormed(hash, s) && Inv(hash, s) && PrefixInv(hash, dir, s, n)
    ensures n <= n' && PrefixInv(hash, dir, Next(hash, s, a), n')
  {
    hide Asks, Strip, WellFormed, Inv, LedgerIsPrefix, PlanIsRest, Next, LedgerRows;
    n' := n;
    StepKeepsDirs(hash, s, a);
    StepKeepsInv(hash, s, a);
    var s' := Next(hash, s, a);
    if Ledger(s') != Ledger(s) {
      n' := n + 1;
      PrefixGrows(hash, dir, s, a, n);
    } else {
      forall x | 0 <= x < |s.procs|
        ensures PlanIsRest(dir, s'.procs[x], n)
      {
        if x == a.r {
          assert PlanIsRest(dir, s.procs[x], n);
          PlanDir(dir, s.procs[x], n);
          PlanKept(hash, dir, s, s', a, n);
        } else {
          OthersStand(hash, s, a, x);
        }
      }
    }
  }

  /** Without a new row the acting process keeps its place, or makes a plan from the ledger. */
  lemma {:induction false} PlanKept(hash: string -> string, dir: seq<File>, s: System, s': System, a: Action, n: nat)
    requires WellFormed(hash, s) && Inv(hash, s) && PrefixInv(hash, dir, s, n) && s' == Next(hash, s, a)
    requires a.r < |s.procs| == |s'.procs| && Ledger(s') == Ledger(s) && s'.procs[a.r].dir == dir
    ensures PlanIsRest(dir, s'.procs[a.r], n)
  {
    hide PlanIsRest, WellFormed, Inv, LedgerIsPrefix, Next;
    assert PlanIsRest(dir, s.procs[a.r], n);
    if a.ReadLedger? {
      PlanRead(hash, dir, s, s', a.r, n);
    } else {
      PlaceKept(hash, s, s', a);
      PlaceIsPlan(dir, s.procs[a.r], s'.procs[a.r], n);
    }
  }

  lemma {:induction false} PlanDir(dir: seq<File>, p: Process, n: nat)
    requires PlanIsRest(dir, p, n)
    ensures p.dir == dir
  {
  }

  lemma {:induction false} PlaceIsPlan(dir: seq<File>, p: Process, p': Process, n: nat)
    requires PlanIsRest(dir, p, n) && p'.dir == dir
    requires Planned(p') ==> Planned(p) && p'.todo == p.todo && Position(p') == Position(p)
    ensures PlanIsRest(dir, p', n)
  {
  }

  lemma {:induction false} PlanRead(hash: string -> string, dir: seq<File>, s: System, s': System, r: nat, n: nat)
    requires WellFormed(hash, s) && PrefixInv(hash, dir, s, n) && s' == Next(hash, s, ReadLedger(r))
    requires r < |s.procs| == |s'.procs|
    ensures PlanIsRest(dir, s'.procs[r], n)
  {
    hide Drifts, LedgerRows, PendingFiles, NeverEmpty, DistinctNames, FileRows;
    assert PlanIsRest(dir, s.procs[r], n);
    PendingBehindPrefix(hash, dir, n, |dir|);
    assert dir[..|dir|] == dir;
  }

  /** Only reading the ledger makes a plan, and only a new row moves on in it. */
  lemma {:induction false} PlaceKept(hash: string -> string, s: System, s': System, a: Action)
    requires s' == Next(hash, s, a) && a.r < |s.procs| == |s'.procs| && !a.ReadLedger? && Ledger(s') == Ledger(s)
    requires Inv(hash, s)
    ensures var p, p' := s.procs[a.r], s'.procs[a.r];
            Planned(p') ==> Planned(p) && p'.todo == p.todo && Position(p') == Position(p)
  {
    hide Body, MustHold, Collides, LedgerRows, TodoOpen, ExecIn, MigrationChecksum, FailQuery, DistinctRows,
         Checksummed, ToMigration, InsertRow, ExecTxn;
    var p := s.procs[a.r];
    if a.Insert? && p.pc == Working && p.k < |p.todo| {
      InsertedWhere(s.base, Session(s.commits, p.open), RowOf(hash, p.todo[p.k]));
    }
    if a.Finish? && p.pc == Inserted && p.open != NoTxn {
      CommitRecords(s.base, Session(s.commits, p.open), RowOf(hash, p.todo[p.k]));
    }
  }

  lemma {:induction false} PrefixGrows(hash: string -> string, dir: seq<File>, s: System, a: Action, n: nat)
    requires WellFormed(hash, s) && Inv(hash, s) && PrefixInv(hash, dir, s, n)
    requires RecordsNext(hash, s, Next(hash, s, a), a.r)
    requires Next(hash, s, a).procs[a.r].dir == s.procs[a.r].dir
    ensures PrefixInv(hash, dir, Next(hash, s, a), n + 1)
  {
    hide WellFormed, LedgerRows, MigrationChecksum, FileRows, HasRow, Next, DistinctNames, MustHold, ToMigration;
    var s', p := Next(hash, s, a), s.procs[a.r];
    assert PlanIsRest(dir, p, n);
    assert p.todo[p.k] == dir[n];
    NextFileRow(hash, dir, n);
    assert LedgerIsPrefix(hash, dir, Ledger(s'), n + 1);
    forall x | 0 <= x < |s.procs|
      ensures PlanIsRest(dir, s'.procs[x], n + 1)
    {
      if x != a.r {
        OthersStand(hash, s, a, x);
        assert PlanIsRest(dir, s.procs[x], n);
        assert !Critical(s.procs[x].pc);
      }
    }
  }

  lemma {:induction false} NextFileRow(hash: string -> string, dir: seq<File>, n: nat)
    requires n < |dir|
    ensures FileRows(hash, dir[..n]) + [Row(dir[n].name, MigrationChecksum(hash, dir[n].raw))]
         == FileRows(hash, dir[..n + 1])
  {
    hide MigrationChecksum;
  }

  /**
   * The ledger records an initial part of the directory in every reachable state, and that part only
   * grows, whatever the bodies do.
   */
  lemma {:induction false} PrefixOverAllRuns(hash: string -> string, dir: seq<File>, s0: System, actions: seq<Action>,
                                             n0: nat)
    returns (n: nat)
    requires WellFormed(hash, s0) && Inv(hash, s0) && PrefixInv(hash, dir, s0, n0)
    ensures n0 <= n && PrefixInv(hash, dir, Reach(hash, s0, actions), n)
    decreases |actions|
  {
    hide Inv, WellFormed, PrefixInv, Next, Records;
    if actions == [] {
      n := n0;
    } else {
      var rest := actions[..|actions| - 1];
      var k := PrefixOverAllRuns(hash, dir, s0, rest, n0);
      StepsKeepInv(hash, s0, rest);
      n := PrefixStep(hash, dir, Reach(hash, s0, rest), actions[|actions| - 1], k);
    }
  }
}
