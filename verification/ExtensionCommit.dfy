/**
 Replacing several files at once: back each one up, move the staged one into place, and undo everything on failure.

 Files are a map from places to contents. Every move or deletion is atomic and may fail without effect; which ones
 fail is given by an arbitrary set of steps.
 */
module ExtensionCommit {
  import opened Wrappers

  /**
   The output file of a name, its staged replacement, its backup inside the transaction directory, or any other file.
   */
  datatype Place = Out(name: string) | Stage(name: string) | Backup(name: string) | Elsewhere(path: string)

  datatype Step = Validate(name: string) | SetAside(name: string) | Install(name: string) | Unlink(name: string)
                | Restore(name: string)

  datatype Outcome = Done | Failed(primary: Step, rollbackErrors: nat)

  type Files = map<Place, string>

  function Lookup(files: Files, p: Place): Option<string> { if p in files then Some(files[p]) else None }

  predicate Distinct(names: seq<string>) { forall i, j :: 0 <= i < j < |names| ==> names[i] != names[j] }

  /** A fresh transaction: every name is staged and nothing is backed up. */
  predicate Ready(files: Files, names: seq<string>) {
    && Distinct(names)
    && forall i :: 0 <= i < |names| ==> Stage(names[i]) in files && Backup(names[i]) !in files
  }

  // ---------------------------------------------------------------- what the end state must be, file by file

  predicate Rejected(names: seq<string>, fails: set<Step>) {
    exists i :: 0 <= i < |names| && Validate(names[i]) in fails
  }

  predicate Blocked(files: Files, fails: set<Step>, name: string) {
    (Out(name) in files && SetAside(name) in fails) || Install(name) in fails
  }

  /** From position `i` on, the first name that cannot be replaced, or the end. */
  function StopAt(files: Files, names: seq<string>, fails: set<Step>, i: nat): (r: nat)
    requires i <= |names|
    ensures i <= r <= |names|
    decreases |names| - i
  {
    if i == |names| || Blocked(files, fails, names[i]) then i else StopAt(files, names, fails, i + 1)
  }

  /** How many names are installed, and how many have had their original set aside, before the first failure. */
  function Installed(files: Files, names: seq<string>, fails: set<Step>): (r: nat)
    ensures r <= |names|
  {
    if Rejected(names, fails) then 0 else StopAt(files, names, fails, 0)
  }

  function AsideEnd(files: Files, names: seq<string>, fails: set<Step>): (r: nat)
    ensures Installed(files, names, fails) <= r <= |names|
  {
    var n := Installed(files, names, fails);
    if !Rejected(names, fails) && n < |names| && SetAside(names[n]) !in fails then n + 1 else n
  }

  predicate Succeeds(files: Files, names: seq<string>, fails: set<Step>) {
    !Rejected(names, fails) && Installed(files, names, fails) == |names|
  }

  /** The original of position `i` was moved to its backup. */
  predicate BackedUp(files: Files, names: seq<string>, fails: set<Step>, i: nat)
    requires i < |names|
  {
    Out(names[i]) in files && i < AsideEnd(files, names, fails)
  }

  /** The content of output file `i` when everything is over. */
  function FinalOut(files: Files, names: seq<string>, fails: set<Step>, i: nat): Option<string>
    requires i < |names|
  {
    var original, staged := Lookup(files, Out(names[i])), Lookup(files, Stage(names[i]));
    if Succeeds(files, names, fails) then staged
    else if BackedUp(files, names, fails, i) && Restore(names[i]) !in fails then original
    else if i < Installed(files, names, fails) then if Unlink(names[i]) in fails then staged else None
    else if BackedUp(files, names, fails, i) then None
    else original
  }

  /** No step of the rollback that is due fails. */
  ghost predicate CleanRollback(files: Files, names: seq<string>, fails: set<Step>) {
    && (forall k :: 0 <= k < Installed(files, names, fails) ==> Unlink(names[k]) !in fails)
    && (forall k :: 0 <= k < |names| && BackedUp(files, names, fails, k) ==> Restore(names[k]) !in fails)
  }

  /**
   All or nothing: success leaves every path with its staged content, a clean rollback leaves every path as it was.
   */
  lemma AllOrNothing(files: Files, names: seq<string>, fails: set<Step>, i: nat)
    requires Ready(files, names) && i < |names|
    ensures Succeeds(files, names, fails) ==> FinalOut(files, names, fails, i) == Some(files[Stage(names[i])])
    ensures !Succeeds(files, names, fails) && CleanRollback(files, names, fails) ==>
      FinalOut(files, names, fails, i) == Lookup(files, Out(names[i]))
  {}

  /** No step of the way to success fails for position `i`. */
  predicate Replaceable(files: Files, names: seq<string>, fails: set<Step>, i: nat)
    requires i < |names|
  {
    && Validate(names[i]) !in fails && Install(names[i]) !in fails
    && (Out(names[i]) in files ==> SetAside(names[i]) !in fails)
  }

  lemma {:induction false} StopsAtFirst(files: Files, names: seq<string>, fails: set<Step>, i: nat)
    requires i <= |names|
    ensures StopAt(files, names, fails, i) == |names| <==>
      forall k :: i <= k < |names| ==> !Blocked(files, fails, names[k])
    decreases |names| - i
  {
    if i < |names| { StopsAtFirst(files, names, fails, i + 1); }
  }

  /** The commit succeeds exactly if no validation, installation or due setting aside fails. */
  lemma SucceedsExactly(files: Files, names: seq<string>, fails: set<Step>)
    ensures Succeeds(files, names, fails) <==> forall i :: 0 <= i < |names| ==> Replaceable(files, names, fails, i)
  {
    StopsAtFirst(files, names, fails, 0);
    hide StopAt;
    if Succeeds(files, names, fails) {
      forall i | 0 <= i < |names| ensures Replaceable(files, names, fails, i) {
        assert !Blocked(files, fails, names[i]);
      }
    }
    if forall i :: 0 <= i < |names| ==> Replaceable(files, names, fails, i) { AllReplaced(files, names, fails); }
  }

  lemma AllReplaced(files: Files, names: seq<string>, fails: set<Step>)
    requires forall i :: 0 <= i < |names| ==> Replaceable(files, names, fails, i)
    ensures Succeeds(files, names, fails)
  {
    StopsAtFirst(files, names, fails, 0);
    hide StopAt;
    forall i | 0 <= i < |names| ensures Validate(names[i]) !in fails && !Blocked(files, fails, names[i]) {
      assert Replaceable(files, names, fails, i);
    }
  }

  /** The path has its old content again, or still, after a failure. */
  predicate Undone(files: Files, names: seq<string>, fails: set<Step>, i: nat)
    requires Ready(files, names) && i < |names|
  {
    if Out(names[i]) in files then
      BackedUp(files, names, fails, i) && Restore(names[i]) in fails ==>
        i < Installed(files, names, fails) && Unlink(names[i]) in fails &&
          files[Stage(names[i])] == files[Out(names[i])]
    else i < Installed(files, names, fails) ==> Unlink(names[i]) !in fails
  }

  /**
   After a failure a path is as it was exactly when its own rollback step worked: a set-aside original must have been
   restored, whatever became of the unlinking, and a path that did not exist must have been unlinked if it was
   installed. Only an original equal to the new content also survives its failed restoring, if the unlinking fails as
   well.
   */
  lemma RollbackPerFile(files: Files, names: seq<string>, fails: set<Step>, i: nat)
    requires Ready(files, names) && i < |names| && !Succeeds(files, names, fails)
    ensures FinalOut(files, names, fails, i) == Lookup(files, Out(names[i])) <==> Undone(files, names, fails, i)
  {}

  /** A replacement that fails after the original was set aside, and whose rollback fails as well, leaves no file. */
  lemma FailedRestoreLosesOriginal(name: string, original: string, staged: string)
    ensures var files := map[Out(name) := original, Stage(name) := staged];
      var fails := {Install(name), Restore(name)};
      && Ready(files, [name]) && !Succeeds(files, [name], fails)
      && Lookup(files, Out(name)) == Some(original) && FinalOut(files, [name], fails, 0) == None
  {
    var files := map[Out(name) := original, Stage(name) := staged];
    var fails := {Install(name), Restore(name)};
    assert Blocked(files, fails, [name][0]);
    assert !Rejected([name], fails);
  }

  /**
   What the outcome says of one path: success means the staged content; after a failure the path is as it was exactly
   when its rollback step worked, and always when no rollback error is reported.
   */
  predicate Settled(before: Files, after: Files, names: seq<string>, fails: set<Step>, outcome: Outcome, i: nat)
    requires Ready(before, names) && i < |names|
  {
    var now, was := Lookup(after, Out(names[i])), Lookup(before, Out(names[i]));
    match outcome
    case Done => now == Some(before[Stage(names[i])])
    case Failed(_, errors) => (now == was <==> Undone(before, names, fails, i)) && (errors == 0 ==> now == was)
  }

  lemma AsPromised(before: Files, after: Files, names: seq<string>, fails: set<Step>, outcome: Outcome, i: nat)
    requires Ready(before, names) && i < |names| && (outcome.Done? <==> Succeeds(before, names, fails))
    requires Lookup(after, Out(names[i])) == FinalOut(before, names, fails, i)
    requires outcome.Failed? ==> (outcome.rollbackErrors == 0 <==> CleanRollback(before, names, fails))
    ensures Settled(before, after, names, fails, outcome, i)
  {
    AllOrNothing(before, names, fails, i);
    if outcome.Failed? { RollbackPerFile(before, names, fails, i); }
  }

  // ---------------------------------------------------------------- the states in between

  /** Where the three files of one name are: its original set aside or not, its new file installed or not, and so on. */
  datatype Stand = Stand(aside: bool, installed: bool, unlinked: bool, restored: bool)

  /** Where position `k` stands once the unlinking, and then the restoring, has come past it. */
  ghost function StandAt(files: Files, names: seq<string>, fails: set<Step>, k: nat, unlinking: bool,
      restoring: bool): Stand
    requires k < |names|
  {
    Stand(BackedUp(files, names, fails, k), k < Installed(files, names, fails),
          unlinking && k < Installed(files, names, fails) && Unlink(names[k]) !in fails,
          restoring && BackedUp(files, names, fails, k) && Restore(names[k]) !in fails)
  }

  ghost predicate Stands(original: Files, files: Files, name: string, s: Stand) {
    && Lookup(files, Backup(name)) == (if s.aside && !s.restored then Lookup(original, Out(name)) else None)
    && Lookup(files, Stage(name)) == (if s.installed then None else Lookup(original, Stage(name)))
    && Lookup(files, Out(name)) ==
         (if s.restored then Lookup(original, Out(name))
          else if s.installed then if s.unlinked then None else Lookup(original, Stage(name))
          else if s.aside then None else Lookup(original, Out(name)))
  }

  predicate Concerns(names: seq<string>, p: Place) { !p.Elsewhere? && p.name in names }

  ghost predicate SameElsewhere(original: Files, files: Files, names: seq<string>) {
    forall p :: !Concerns(names, p) ==> Lookup(files, p) == Lookup(original, p)
  }

  /** Only the three files of `name` differ. */
  ghost predicate OnlyTouches(before: Files, after: Files, name: string) {
    forall p: Place :: p.Elsewhere? || p.name != name ==> Lookup(after, p) == Lookup(before, p)
  }

  lemma OthersStand(original: Files, before: Files, after: Files, names: seq<string>, i: nat)
    requires Distinct(names) && i < |names| && OnlyTouches(before, after, names[i])
    ensures forall k, s :: 0 <= k < |names| && k != i && Stands(original, before, names[k], s) ==>
      Stands(original, after, names[k], s)
    ensures SameElsewhere(original, before, names) ==> SameElsewhere(original, after, names)
  {
    forall k, s | 0 <= k < |names| && k != i && Stands(original, before, names[k], s)
      ensures Stands(original, after, names[k], s)
    {
      assert names[k] != names[i];
    }
    assert names[i] in names;
  }

  lemma UndoneAsSpecified(original: Files, files: Files, names: seq<string>, fails: set<Step>, k: nat)
    requires k < |names| && !Succeeds(original, names, fails)
    requires Stands(original, files, names[k], StandAt(original, names, fails, k, true, true))
    ensures Lookup(files, Out(names[k])) == FinalOut(original, names, fails, k)
  {
    hide Installed, AsideEnd;
  }

  lemma InitiallyStands(files: Files, names: seq<string>)
    requires Ready(files, names)
    ensures forall k :: 0 <= k < |names| ==> Stands(files, files, names[k], Stand(false, false, false, false))
    ensures SameElsewhere(files, files, names)
  {}

  lemma StoppedHere(files: Files, names: seq<string>, fails: set<Step>, i: nat)
    requires !Rejected(names, fails) && i <= |names| && StopAt(files, names, fails, 0) == StopAt(files, names, fails, i)
    requires i == |names| || Blocked(files, fails, names[i])
    ensures Installed(files, names, fails) == i
    ensures AsideEnd(files, names, fails) == if i < |names| && SetAside(names[i]) !in fails then i + 1 else i
  {}

  /** The names among the first `n` whose original file exists: what the list of backups holds. */
  function Existing(files: Files, names: seq<string>, n: nat): seq<string>
    requires n <= |names|
  {
    if n == 0 then []
    else Existing(files, names, n - 1) + (if Out(names[n - 1]) in files then [names[n - 1]] else [])
  }

  lemma {:induction false} LastExisting(files: Files, names: seq<string>, n: nat) returns (m: nat)
    requires n <= |names| && |Existing(files, names, n)| > 0
    ensures m < n && Out(names[m]) in files && forall k :: m < k < n ==> Out(names[k]) !in files
    ensures Existing(files, names, n) == Existing(files, names, m) + [names[m]]
  {
    if Out(names[n - 1]) in files {
      m := n - 1;
    } else {
      m := LastExisting(files, names, n - 1);
    }
  }

  lemma {:induction false} NoneExisting(files: Files, names: seq<string>, n: nat)
    requires n <= |names| && Existing(files, names, n) == []
    ensures forall k :: 0 <= k < n ==> Out(names[k]) !in files
  {
    if n > 0 { NoneExisting(files, names, n - 1); }
  }

  function TransactionPlaces(names: seq<string>): set<Place> {
    if |names| == 0 then {}
    else TransactionPlaces(names[..|names| - 1]) + {Stage(names[|names| - 1]), Backup(names[|names| - 1])}
  }

  lemma {:induction false} TransactionPlacesExact(names: seq<string>)
    ensures forall p :: p in TransactionPlaces(names) <==> (p.Stage? || p.Backup?) && p.name in names
  {
    if |names| > 0 {
      TransactionPlacesExact(names[..|names| - 1]);
      assert names == names[..|names| - 1] + [names[|names| - 1]];
    }
  }

  // ---------------------------------------------------------------- the transaction

  /** The file system; `fails` is fixed but arbitrary. */
  class Store {
    var files: Files
    const fails: set<Step>

    constructor (files: Files, fails: set<Step>)
      ensures this.files == files && this.fails == fails
    {
      this.files, this.fails := files, fails;
    }

    /** Moves a file over another, or fails and changes nothing. */
    method Move(step: Step, from: Place, to: Place) returns (ok: bool)
      requires from in files && from != to
      modifies this`files
      ensures ok <==> step !in fails
      ensures files == if ok then (old(files) - {from})[to := old(files)[from]] else old(files)
    {
      ok := step !in fails;
      if ok {
        files := (files - {from})[to := files[from]];
      }
    }

    method Delete(step: Step, place: Place) returns (ok: bool)
      modifies this`files
      ensures ok <==> step !in fails
      ensures files == if ok then old(files) - {place} else old(files)
    {
      ok := step !in fails;
      if ok {
        files := files - {place};
      }
    }

    /** Installs every staged file or undoes what it did; the transaction directory is gone afterwards in any case. */
    method Commit(names: seq<string>) returns (outcome: Outcome)
      requires Ready(files, names)
      modifies this`files
      ensures outcome.Done? <==> Succeeds(old(files), names, fails)
      ensures forall i :: 0 <= i < |names| ==>
        && Lookup(files, Out(names[i])) == FinalOut(old(files), names, fails, i)
        && Stage(names[i]) !in files && Backup(names[i]) !in files
      ensures SameElsewhere(old(files), files, names)
      ensures outcome.Failed? ==> (outcome.rollbackErrors == 0 <==> CleanRollback(old(files), names, fails))
      ensures forall i :: 0 <= i < |names| ==> Settled(old(files), files, names, fails, outcome, i)
    {
      hide Settled, FinalOut, CleanRollback, Succeeds, Ready;
      ghost var original := files;
      outcome := InstallOrUndo(names);
      TransactionPlacesExact(names);
      files := files - TransactionPlaces(names);
      forall i | 0 <= i < |names| ensures Settled(original, files, names, fails, outcome, i) {
        AsPromised(original, files, names, fails, outcome, i);
      }
    }

    method InstallOrUndo(names: seq<string>) returns (outcome: Outcome)
      requires Ready(files, names)
      modifies this`files
      ensures outcome.Done? <==> Succeeds(old(files), names, fails)
      ensures forall i :: 0 <= i < |names| ==> Lookup(files, Out(names[i])) == FinalOut(old(files), names, fails, i)
      ensures SameElsewhere(old(files), files, names)
      ensures outcome.Failed? ==> (outcome.rollbackErrors == 0 <==> CleanRollback(old(files), names, fails))
    {
      ghost var original := files;
      var backedUp, committed: seq<string> := [], [];
      var failed := FirstInvalid(names);
      if failed.None? {
        failed, backedUp, committed := InstallAll(names);
      }
      outcome := Done;
      if failed.Some? {
        var errors := Undo(original, names, committed, backedUp);
        outcome := Failed(failed.value, errors);
      }
    }

    method FirstInvalid(names: seq<string>) returns (failed: Option<Step>)
      ensures failed.Some? <==> Rejected(names, fails)
    {
      for i := 0 to |names|
        invariant forall k :: 0 <= k < i ==> Validate(names[k]) !in fails
      {
        if Validate(names[i]) in fails {
          return Some(Validate(names[i]));
        }
      }
      return None;
    }

    method InstallAll(names: seq<string>) returns (failed: Option<Step>, backedUp: seq<string>, committed: seq<string>)
      requires Ready(files, names) && !Rejected(names, fails)
      modifies this`files
      ensures failed.None? <==> Succeeds(old(files), names, fails)
      ensures committed == names[..Installed(old(files), names, fails)]
      ensures backedUp == Existing(old(files), names, AsideEnd(old(files), names, fails))
      ensures SameElsewhere(old(files), files, names)
      ensures forall k :: 0 <= k < |names| ==>
        Stands(old(files), files, names[k], StandAt(old(files), names, fails, k, false, false))
    {
      hide Stands, SameElsewhere, OnlyTouches, Rejected, AsideEnd, Installed;
      ghost var original := files;
      InitiallyStands(files, names);
      backedUp, committed := [], [];
      for i := 0 to |names|
        invariant committed == names[..i] && StopAt(original, names, fails, 0) == StopAt(original, names, fails, i)
        invariant backedUp == Existing(original, names, i)
        invariant forall k :: 0 <= k < |names| ==>
          Stands(original, files, names[k], Stand(k < i && Out(names[k]) in original, k < i, false, false))
        invariant SameElsewhere(original, files, names)
      {
        hide Stands, SameElsewhere, OnlyTouches, Rejected;
        ghost var before := files;
        var aside;
        aside, failed := InstallOne(original, names[i]);
        OthersStand(original, before, files, names, i);
        if aside {
          backedUp := backedUp + [names[i]];
        }
        if failed.Some? {
          StoppedHere(original, names, fails, i);
          return;
        }
        assert names[..i + 1] == names[..i] + [names[i]];
        committed := committed + [names[i]];
      }
      StoppedHere(original, names, fails, |names|);
      return None, backedUp, committed;
    }

    method InstallOne(ghost original: Files, name: string) returns (aside: bool, failed: Option<Step>)
      requires Stands(original, files, name, Stand(false, false, false, false)) && Stage(name) in original
      modifies this`files
      ensures OnlyTouches(old(files), files, name)
      ensures aside <==> Out(name) in original && SetAside(name) !in fails
      ensures failed.Some? <==> Blocked(original, fails, name)
      ensures Stands(original, files, name, Stand(aside, failed.None?, false, false))
    {
      aside := false;
      assert Lookup(files, Stage(name)).Some?;
      if Out(name) in files {
        aside := Move(SetAside(name), Out(name), Backup(name));
        if !aside {
          return false, Some(SetAside(name));
        }
      }
      var ok := Move(Install(name), Stage(name), Out(name));
      failed := if ok then None else Some(Install(name));
    }

    /** Both rollback loops: newest first, going on after an error, counting the errors. */
    method Undo(ghost original: Files, names: seq<string>, committed: seq<string>, backedUp: seq<string>)
      returns (errors: nat)
      requires Ready(original, names) && !Succeeds(original, names, fails)
      requires committed == names[..Installed(original, names, fails)]
      requires backedUp == Existing(original, names, AsideEnd(original, names, fails))
      requires SameElsewhere(original, files, names)
      requires forall k :: 0 <= k < |names| ==>
        Stands(original, files, names[k], StandAt(original, names, fails, k, false, false))
      modifies this`files
      ensures SameElsewhere(original, files, names)
      ensures forall k :: 0 <= k < |names| ==> Lookup(files, Out(names[k])) == FinalOut(original, names, fails, k)
      ensures errors == 0 <==> CleanRollback(original, names, fails)
    {
      var unlinkErrors := UnlinkAll(original, names, committed);
      var restoreErrors := RestoreAll(original, names, backedUp);
      errors := unlinkErrors + restoreErrors;
      hide Stands, SameElsewhere, Succeeds, FinalOut, Existing;
      forall k | 0 <= k < |names| ensures Lookup(files, Out(names[k])) == FinalOut(original, names, fails, k) {
        UndoneAsSpecified(original, files, names, fails, k);
      }
    }

    method UnlinkAll(ghost original: Files, names: seq<string>, committed: seq<string>) returns (errors: nat)
      requires Distinct(names) && committed == names[..Installed(original, names, fails)]
      requires SameElsewhere(original, files, names)
      requires forall k :: 0 <= k < |names| ==>
        Stands(original, files, names[k], StandAt(original, names, fails, k, false, false))
      modifies this`files
      ensures SameElsewhere(original, files, names)
      ensures forall k :: 0 <= k < |names| ==>
        Stands(original, files, names[k], StandAt(original, names, fails, k, true, false))
      ensures errors == 0 <==> forall k :: 0 <= k < |committed| ==> Unlink(names[k]) !in fails
    {
      hide Stands, SameElsewhere, OnlyTouches, Installed, AsideEnd;
      errors := 0;
      var i := |committed|;
      while i > 0
        invariant 0 <= i <= |committed|
        invariant SameElsewhere(original, files, names)
        invariant forall k :: 0 <= k < |names| ==>
          Stands(original, files, names[k], StandAt(original, names, fails, k, i <= k, false))
        invariant errors == 0 <==> forall k :: i <= k < |committed| ==> Unlink(names[k]) !in fails
      {
        i := i - 1;
        assert committed[i] == names[i];
        ghost var before := files;
        var ok := UnlinkOne(original, committed[i], BackedUp(original, names, fails, i));
        OthersStand(original, before, files, names, i);
        if !ok { errors := errors + 1; }
      }
    }

    method RestoreAll(ghost original: Files, names: seq<string>, backedUp: seq<string>) returns (errors: nat)
      requires Distinct(names) && backedUp == Existing(original, names, AsideEnd(original, names, fails))
      requires SameElsewhere(original, files, names)
      requires forall k :: 0 <= k < |names| ==>
        Stands(original, files, names[k], StandAt(original, names, fails, k, true, false))
      modifies this`files
      ensures SameElsewhere(original, files, names)
      ensures forall k :: 0 <= k < |names| ==>
        Stands(original, files, names[k], StandAt(original, names, fails, k, true, true))
      ensures errors == 0 <==>
        forall k :: 0 <= k < |names| && BackedUp(original, names, fails, k) ==> Restore(names[k]) !in fails
    {
      hide Stands, SameElsewhere, OnlyTouches, Installed, AsideEnd;
      errors := 0;
      ghost var n: nat := AsideEnd(original, names, fails);
      var j := |backedUp|;
      while j > 0
        invariant 0 <= j <= |backedUp| && n <= AsideEnd(original, names, fails)
        invariant backedUp[..j] == Existing(original, names, n)
        invariant SameElsewhere(original, files, names)
        invariant forall k :: 0 <= k < |names| ==>
          Stands(original, files, names[k], StandAt(original, names, fails, k, true, n <= k))
        invariant errors == 0 <==>
          forall k :: n <= k < |names| && BackedUp(original, names, fails, k) ==> Restore(names[k]) !in fails
      {
        ghost var m: nat := LastExisting(original, names, n);
        j := j - 1;
        assert backedUp[j] == backedUp[..j + 1][j] == names[m];
        assert backedUp[..j] == backedUp[..j + 1][..j];
        ghost var before := files;
        var ok := RestoreOne(original, backedUp[j], m < Installed(original, names, fails));
        OthersStand(original, before, files, names, m);
        if !ok { errors := errors + 1; }
        n := m;
      }
      NoneExisting(original, names, n);
    }

    method UnlinkOne(ghost original: Files, name: string, ghost aside: bool) returns (ok: bool)
      requires Stands(original, files, name, Stand(aside, true, false, false))
      modifies this`files
      ensures OnlyTouches(old(files), files, name) && (ok <==> Unlink(name) !in fails)
      ensures Stands(original, files, name, Stand(aside, true, Unlink(name) !in fails, false))
    {
      ok := Delete(Unlink(name), Out(name));
    }

    method RestoreOne(ghost original: Files, name: string, ghost installed: bool) returns (ok: bool)
      requires Stands(original, files, name, Stand(true, installed, installed && Unlink(name) !in fails, false))
      requires Out(name) in original
      modifies this`files
      ensures OnlyTouches(old(files), files, name) && (ok <==> Restore(name) !in fails)
      ensures Stands(original, files, name,
        Stand(true, installed, installed && Unlink(name) !in fails, Restore(name) !in fails))
    {
      assert Lookup(files, Backup(name)).Some?;
      ok := Move(Restore(name), Backup(name), Out(name));
    }
  }
}
