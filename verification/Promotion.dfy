/** Promotion of staged configuration files into the output directory, with rollback. */
module Promotion {

  datatype Name = Rules | Topology | Plugins | Other(n: nat)

  type Content = nat

  /** The order in which files are backed up and replaced. */
  const TARGETS: seq<Name> := [Rules, Topology, Plugins]

  /** A directory that may be missing. */
  datatype Directory = Absent | Present(files: map<Name, Content>)

  function FilesOf(d: Directory): map<Name, Content> {
    if d.Absent? then map[] else d.files
  }

  /** The directory after a successful promotion. */
  function Promoted(d: Directory, staged: map<Name, Content>): Directory {
    Present(FilesOf(d) + staged)
  }

  /** The three files are the staged ones; every other file is as it was. */
  ghost predicate AllPromoted(before: Directory, after: Directory, staged: map<Name, Content>)
    requires staged.Keys == {Rules, Topology, Plugins}
  {
    && after.Present?
    && (forall n :: n in [Rules, Topology, Plugins] ==> n in after.files && after.files[n] == staged[n])
    && (forall n :: n !in [Rules, Topology, Plugins] ==>
          (n in after.files <==> before.Present? && n in before.files)
          && (n in after.files && before.Present? && n in before.files ==> after.files[n] == before.files[n]))
  }

  lemma {:induction false} PromotedAll(before: Directory, staged: map<Name, Content>)
    requires staged.Keys == {Rules, Topology, Plugins}
    ensures AllPromoted(before, Promoted(before, staged), staged)
  {}

  /** The file system as far as promotion touches it: the output directory and one backup directory.
      `faults` tells which of the numbered fallible operations fail. */
  class Disk {
    var out: Directory
    var backup: Directory
    var operations: nat
    const faults: set<nat>

    constructor (out: Directory, faults: set<nat>)
      ensures this.out == out && this.backup == Absent && this.operations == 0 && this.faults == faults
    {
      this.out, this.backup, this.operations, this.faults := out, Absent, 0, faults;
    }

    /** Counts one fallible operation and tells whether it may proceed. */
    method Attempt() returns (ok: bool)
      modifies this`operations
      ensures operations == old(operations) + 1 && (ok <==> old(operations) !in faults)
    {
      ok := operations !in faults;
      operations := operations + 1;
    }

    method MakeOut() returns (ok: bool)
      modifies this`operations, this`out
      ensures operations == old(operations) + 1 && (ok <==> old(operations) !in faults)
      ensures out == if ok && old(out).Absent? then Present(map[]) else old(out)
    {
      ok := Attempt();
      if ok && out.Absent? { out := Present(map[]); }
    }

    method MakeBackup() returns (ok: bool)
      modifies this`operations, this`backup
      ensures operations == old(operations) + 1 && (ok <==> old(operations) !in faults)
      ensures backup == if ok then Present(map[]) else old(backup)
    {
      ok := Attempt();
      if ok { backup := Present(map[]); }
    }

    /** Copies one output file into the backup directory; a failing copy may leave a partial one there. */
    method CopyToBackup(name: Name, partial: Content) returns (ok: bool)
      requires out.Present? && name in out.files && backup.Present?
      modifies this`operations, this`backup
      ensures operations == old(operations) + 1 && (ok <==> old(operations) !in faults)
      ensures backup == Present(old(backup).files[name := if ok then out.files[name] else partial])
    {
      ok := Attempt();
      backup := Present(backup.files[name := if ok then out.files[name] else partial]);
    }

    /** `os.replace` is atomic. */
    method Replace(name: Name, content: Content) returns (ok: bool)
      requires out.Present?
      modifies this`operations, this`out
      ensures operations == old(operations) + 1 && (ok <==> old(operations) !in faults)
      ensures out == if ok then Present(old(out).files[name := content]) else old(out)
    {
      ok := Attempt();
      if ok { out := Present(out.files[name := content]); }
    }

    /** Promotes the staged files or puts everything back. Restoring is taken to succeed. */
    method Promote(staged: map<Name, Content>, partial: Content) returns (ok: bool)
      requires staged.Keys == {Rules, Topology, Plugins} && backup.Absent?
      modifies this
      ensures backup.Absent?
      ensures ok ==> out == Promoted(old(out), staged) && AllPromoted(old(out), out, staged)
      ensures !ok ==> out == old(out)
      ensures ok <==> forall i :: old(operations) <= i < operations ==> i !in faults
      ensures ok ==> operations == old(operations) + 5 + |Existing(FilesOf(old(out)))|
      ensures !ok ==> operations <= old(operations) + 5 + |Existing(FilesOf(old(out)))|
    {
      hide ExistingUpTo, Chosen;
      ghost var before := out;
      var created := out.Absent?;
      var backedUp: map<Name, Content> := map[];
      var promoted: seq<Name> := [];
      ok := MakeOut();
      if ok {
        ok := MakeBackup();
        if ok {
          ok, backedUp := BackUpAll(partial);
          if ok {
            ok, promoted := ReplaceAll(staged);
          }
        }
      }
      ChosenNone(FilesOf(before), staged);
      PromotedAll(before, staged);
      if !ok {
        RollBack(created, backedUp, promoted, before, staged);
      } else {
        assert FilesOf(before) + Chosen(staged, 3) == FilesOf(before) + staged by { ChosenAll(staged); }
      }
      backup := Absent;
    }

    /** Backs up the target files that exist, in order, until one copy fails. */
    method BackUpAll(partial: Content) returns (ok: bool, backedUp: map<Name, Content>)
      requires out.Present? && backup == Present(map[])
      modifies this`operations, this`backup
      ensures backup.Present?
      ensures forall n :: n in backedUp ==> n in TARGETS && n in out.files && backedUp[n] == out.files[n]
      ensures ok ==> forall n :: n in TARGETS && n in out.files ==> n in backedUp
      ensures ok <==> forall i :: old(operations) <= i < operations ==> i !in faults
      ensures operations <= old(operations) + |Existing(out.files)|
      ensures ok ==> operations == old(operations) + |Existing(out.files)|
    {
      ok, backedUp := true, map[];
      var i := 0;
      ExistingUpTo0(out.files);
      while i < |TARGETS| && ok
        invariant 0 <= i <= |TARGETS|
        invariant backup.Present?
        invariant forall n :: n in backedUp ==> n in TARGETS && n in out.files && backedUp[n] == out.files[n]
        invariant ok ==> forall j :: 0 <= j < i && TARGETS[j] in out.files ==> TARGETS[j] in backedUp
        invariant ok <==> forall j :: old(operations) <= j < operations ==> j !in faults
        invariant operations == old(operations) + |ExistingUpTo(out.files, i)|
      {
        var name := TARGETS[i];
        ExistingUpToNext(out.files, i);
        if name in out.files {
          ok := CopyToBackup(name, partial);
          if ok { backedUp := backedUp[name := backup.files[name]]; }
        }
        i := i + 1;
      }
      ExistingUpToMonotone(out.files, i);
    }

    /** Replaces the target files in order until one replacement fails. */
    method ReplaceAll(staged: map<Name, Content>) returns (ok: bool, promoted: seq<Name>)
      requires out.Present? && staged.Keys == {Rules, Topology, Plugins}
      modifies this`operations, this`out
      ensures promoted <= TARGETS == [Rules, Topology, Plugins] && out == Present(old(out).files + Chosen(staged, |promoted|))
      ensures ok ==> promoted == TARGETS
      ensures ok <==> forall i :: old(operations) <= i < operations ==> i !in faults
      ensures operations <= old(operations) + 3 && (ok ==> operations == old(operations) + 3)
    {
      hide Chosen;
      ok, promoted := true, [];
      var i := 0;
      ChosenNone(out.files, staged);
      while i < |TARGETS| && ok
        invariant 0 <= i <= |TARGETS|
        invariant (!ok ==> i > 0) && promoted == TARGETS[..if ok || i == 0 then i else i - 1]
        invariant out == Present(old(out).files + Chosen(staged, |promoted|))
        invariant ok <==> forall j :: old(operations) <= j < operations ==> j !in faults
        invariant operations == old(operations) + i
      {
        var name := TARGETS[i];
        ok := Replace(name, staged[name]);
        if ok {
          promoted := promoted + [name];
          ChosenNext(old(out).files, staged, i);
        }
        i := i + 1;
      }
    }

    /** Restores backups, removes new files and, if it was created and is empty, the directory. */
    method RollBack(created: bool, backedUp: map<Name, Content>, promoted: seq<Name>, ghost before: Directory,
                    staged: map<Name, Content>)
      requires staged.Keys == {Rules, Topology, Plugins} && (created <==> before.Absent?)
      requires promoted <= TARGETS
      requires forall n :: n in backedUp ==> n in TARGETS && n in FilesOf(before) && backedUp[n] == FilesOf(before)[n]
      requires promoted != [] ==> forall n :: n in TARGETS && n in FilesOf(before) ==> n in backedUp
      requires out.Absent? ==> before.Absent? && promoted == [] && backedUp == map[]
      requires out.Present? ==> out.files == FilesOf(before) + Chosen(staged, |promoted|)
      modifies this`out
      ensures out == before
    {
      hide Chosen, NewFiles;
      if out.Present? {
        var files := RemoveNew(out.files + backedUp, promoted, backedUp);
        RestoresAll(before, staged, backedUp, promoted, files);
        if created && files == map[] { out := Absent; } else { out := Present(files); }
      }
    }
  }

  function NewFiles(promoted: seq<Name>, backedUp: map<Name, Content>): set<Name> {
    set n | n in promoted && n !in backedUp
  }

  /** The first `n` staged files. */
  function Chosen(staged: map<Name, Content>, n: nat): map<Name, Content> {
    map name | name in staged && name in TARGETS[..if n <= 3 then n else 3] :: staged[name]
  }

  lemma {:induction false} ChosenNone(files: map<Name, Content>, staged: map<Name, Content>)
    ensures files + Chosen(staged, 0) == files
  {}

  lemma {:induction false} ChosenNext(files: map<Name, Content>, staged: map<Name, Content>, i: nat)
    requires staged.Keys == {Rules, Topology, Plugins} && i < 3
    ensures (files + Chosen(staged, i))[TARGETS[i] := staged[TARGETS[i]]] == files + Chosen(staged, i + 1)
  {
    assert TARGETS[..i + 1] == TARGETS[..i] + [TARGETS[i]];
  }

  /** Unlinks the promoted files that had no backup. */
  method RemoveNew(all: map<Name, Content>, promoted: seq<Name>, backedUp: map<Name, Content>) returns (files: map<Name, Content>)
    ensures files == all - NewFiles(promoted, backedUp)
  {
    files := all;
    for i := 0 to |promoted|
      invariant files == all - NewFiles(promoted[..i], backedUp)
    {
      assert promoted[..i + 1] == promoted[..i] + [promoted[i]];
      if promoted[i] !in backedUp { files := files - {promoted[i]}; }
    }
    assert promoted[..|promoted|] == promoted;
  }

  lemma {:induction false} ChosenAll(staged: map<Name, Content>)
    requires staged.Keys == {Rules, Topology, Plugins}
    ensures Chosen(staged, 3) == staged
  {
    assert TARGETS[..3] == TARGETS;
  }

  function ExistingUpTo(files: map<Name, Content>, i: nat): set<Name> {
    set n | n in TARGETS[..if i <= 3 then i else 3] && n in files
  }

  /** The target files that are there before promotion. */
  function Existing(files: map<Name, Content>): set<Name> {
    ExistingUpTo(files, 3)
  }

  lemma {:induction false} ExistingUpTo0(files: map<Name, Content>)
    ensures ExistingUpTo(files, 0) == {}
  {}

  lemma {:induction false} ExistingUpToNext(files: map<Name, Content>, i: nat)
    requires i < 3
    ensures |ExistingUpTo(files, i + 1)| == |ExistingUpTo(files, i)| + if TARGETS[i] in files then 1 else 0
  {
    assert TARGETS[..i + 1] == TARGETS[..i] + [TARGETS[i]];
    if TARGETS[i] in files {
      assert ExistingUpTo(files, i + 1) == ExistingUpTo(files, i) + {TARGETS[i]};
    } else {
      assert ExistingUpTo(files, i + 1) == ExistingUpTo(files, i);
    }
  }

  lemma {:induction false} ExistingUpToMonotone(files: map<Name, Content>, i: nat)
    requires i <= 3
    ensures |ExistingUpTo(files, i)| <= |Existing(files)|
    decreases 3 - i
  {
    if i < 3 {
      ExistingUpToNext(files, i);
      ExistingUpToMonotone(files, i + 1);
    }
  }

  lemma {:induction false} RestoresAll(before: Directory, staged: map<Name, Content>, backedUp: map<Name, Content>,
                                       promoted: seq<Name>, files: map<Name, Content>)
    requires staged.Keys == {Rules, Topology, Plugins} && promoted <= TARGETS
    requires forall n :: n in backedUp ==> n in TARGETS && n in FilesOf(before) && backedUp[n] == FilesOf(before)[n]
    requires promoted != [] ==> forall n :: n in TARGETS && n in FilesOf(before) ==> n in backedUp
    requires files == FilesOf(before) + Chosen(staged, |promoted|) + backedUp
                      - NewFiles(promoted, backedUp)
    ensures files == FilesOf(before)
  {
    var chosen := Chosen(staged, |promoted|);
    assert promoted == TARGETS[..|promoted|];
    assert chosen.Keys == set n | n in promoted;
    forall n | n in chosen ensures n in backedUp || n in NewFiles(promoted, backedUp) {}
    forall n | n in NewFiles(promoted, backedUp) ensures n !in FilesOf(before) {}
  }
}
