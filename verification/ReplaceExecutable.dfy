/** Replacing the running executable (update_helper.go, update_helper_unix.go): renames and copies
    that may each fail, with the old bytes kept until the new ones are in place. */
module ReplaceExecutable {
  import opened Bytes
  import opened Texts

  type Files = map<string, bytes>

  // ----- the file system

  /** How a copy ends: done, not opened, broken off after some bytes, or complete but not synced. */
  datatype CopyFate = Done | NotOpened | BrokenOff(written: nat) | NotSynced

  /** What a copy leaves at its target: a copy onto itself truncates its own source. */
  function Copied(files: Files, from: string, to: string): bytes
    requires from in files
  {
    if from == to then [] else files[from]
  }

  function Prefix(data: bytes, n: nat): (p: bytes)
    ensures p <= data
  {
    if n < |data| then data[..n] else data
  }

  /** The files, and every state they went through. A rename is atomic; a copy is not. */
  class FileSystem {
    var files: Files
    ghost var history: seq<Files>

    method Rename(from: string, to: string, works: bool) returns (ok: bool)
      modifies this
      ensures ok == (works && from in old(files))
      ensures files == if ok then (old(files) - {from})[to := old(files)[from]] else old(files)
      ensures history == old(history) + [files]
    {
      ok := works && from in files;
      if ok {
        files := (files - {from})[to := files[from]];
      }
      history := history + [files];
    }

    method Remove(path: string, works: bool)
      modifies this
      ensures files == if works then old(files) - {path} else old(files)
      ensures history == old(history) + [files]
    {
      if works {
        files := files - {path};
      }
      history := history + [files];
    }

    /** Only the target changes, at every moment of the copy. */
    method CopyFile(from: string, to: string, fate: CopyFate) returns (ok: bool)
      modifies this
      ensures ok == (fate.Done? && from in old(files))
      ensures ok ==> files == old(files)[to := Copied(old(files), from, to)]
      ensures SameBut(files, old(files), to)
      ensures Extends(history, old(history)) && forall i :: |old(history)| <= i < |history| ==> SameBut(history[i], old(files), to)
    {
      if from !in files || fate.NotOpened? {
        return false;
      }
      ghost var before := files;
      files := files[to := []];
      history := history + [files];
      var data := files[from];
      assert data == Copied(before, from, to);
      var written := if fate.BrokenOff? then Prefix(data, fate.written) else data;
      files := files[to := written];
      assert files == before[to := written];
      history := history + [files];
      return fate.Done?;
    }
  }

  predicate Extends<T(==)>(longer: seq<T>, shorter: seq<T>) {
    |shorter| <= |longer| && longer[..|shorter|] == shorter
  }

  predicate SameBut(a: Files, b: Files, path: string) {
    a - {path} == b - {path}
  }

  // ----- paths

  /** A path up to its last slash. */
  function Folder(path: string): string {
    if path == "" then "" else if path[|path| - 1] == '/' then path else Folder(path[..|path| - 1])
  }

  /** The segments of a path with empty ones and dots dropped and double dots resolved. */
  function Resolved(parts: seq<string>, done: seq<string>, rooted: bool): seq<string>
    decreases |parts|
  {
    if parts == [] then done
    else if parts[0] == "" || parts[0] == "." then Resolved(parts[1..], done, rooted)
    else if parts[0] == ".." && done != [] && done[|done| - 1] != ".." then Resolved(parts[1..], done[..|done| - 1], rooted)
    else if parts[0] == ".." && rooted then Resolved(parts[1..], done, rooted)
    else Resolved(parts[1..], done + [parts[0]], rooted)
  }

  /** The shortest equivalent spelling of a path. */
  function Clean(path: string): string {
    var rooted := "/" <= path;
    var parts := Resolved(Split(path, '/'), [], rooted);
    var body := if parts == [] then "" else Join(parts, '/');
    if rooted then "/" + body else if body == "" then "." else body
  }

  function Dir(path: string): string {
    Clean(Folder(path))
  }

  // ----- what cleaning comes to

  lemma {:induction false} ResolvedAppend(a: seq<string>, b: seq<string>, done: seq<string>, rooted: bool)
    ensures Resolved(a + b, done, rooted) == Resolved(b, Resolved(a, done, rooted), rooted)
    decreases |a|
  {
    if a == [] {
      assert a + b == b;
    } else {
      assert (a + b)[1..] == a[1..] + b && (a + b)[0] == a[0];
      var next :=
        if a[0] == "" || a[0] == "." then done
        else if a[0] == ".." && done != [] && done[|done| - 1] != ".." then done[..|done| - 1]
        else if a[0] == ".." && rooted then done
        else done + [a[0]];
      ResolvedAppend(a[1..], b, next, rooted);
    }
  }

  /** A name that stands for itself in a path. */
  predicate PlainName(name: string) {
    name != "" && name != "." && name != ".." && '/' !in name
  }

  /** Plain names stay as they are. */
  lemma {:induction false} PlainStay(names: seq<string>, done: seq<string>, rooted: bool)
    requires forall n :: n in names ==> PlainName(n)
    ensures Resolved(names, done, rooted) == done + names
    decreases |names|
  {
    if names == [] {
      assert done + names == done;
    } else {
      assert names[0] in names;
      PlainStay(names[1..], done + [names[0]], rooted);
      assert done + [names[0]] + names[1..] == done + names;
    }
  }

  /** Empty segments and dots drop out anywhere, a plain name goes with the double dot after it, and a
      rooted path does not leave its root. */
  lemma SegmentsDrop(a: seq<string>, name: string, b: seq<string>, rooted: bool)
    requires PlainName(name)
    ensures Resolved(a + [""] + b, [], rooted) == Resolved(a + b, [], rooted)
    ensures Resolved(a + ["."] + b, [], rooted) == Resolved(a + b, [], rooted)
    ensures Resolved(a + [name, ".."] + b, [], rooted) == Resolved(a + b, [], rooted)
    ensures Resolved([".."] + b, [], true) == Resolved(b, [], true)
    ensures Resolved([".."] + b, [], false) == Resolved(b, [".."], false)
  {
    ResolvedOne(a, [""], b, rooted);
    ResolvedOne(a, ["."], b, rooted);
    ResolvedOne(a, [name, ".."], b, rooted);
    ResolvedAppend(a, b, [], rooted);
    ResolvedAppend([".."], b, [], true);
    ResolvedAppend([".."], b, [], false);
    assert Resolved([".."], [], false) == [".."] by { assert [".."][1..] == [] && [] + [".."] == [".."]; }
    DropsSelf(Resolved(a, [], rooted), name, rooted);
    assert Resolved([".."], [], true) == [] by { assert [".."][1..] == []; }
  }

  lemma ResolvedOne(a: seq<string>, middle: seq<string>, b: seq<string>, rooted: bool)
    ensures Resolved(a + middle + b, [], rooted) == Resolved(b, Resolved(middle, Resolved(a, [], rooted), rooted), rooted)
  {
    ResolvedAppend(a + middle, b, [], rooted);
    ResolvedAppend(a, middle, [], rooted);
  }

  lemma DropsSelf(done: seq<string>, name: string, rooted: bool)
    requires PlainName(name)
    ensures Resolved([""], done, rooted) == done && Resolved(["."], done, rooted) == done && Resolved([name, ".."], done, rooted) == done
  {
    var pair := [name, ".."];
    assert [""][1..] == [] && ["."][1..] == [] && pair[1..] == [".."] && [".."][1..] == [];
    assert (done + [name])[..|done + [name]| - 1] == done;
  }

  /** A rooted path of names, each followed by a slash. */
  function Rooted(names: seq<string>): string {
    if names == [] then "/" else "/" + Join(names, '/') + "/"
  }

  lemma CleanRooted(names: seq<string>)
    requires forall n :: n in names ==> PlainName(n)
    ensures Clean(Rooted(names)) == "/" + if names == [] then "" else Join(names, '/')
  {
    var parts := Split(Rooted(names), '/');
    hide Split, Join;
    assert parts == [""] + names + [""] by {
      if names == [] {
        SplitAt("", "", '/');
        SplitOfPlain("", '/');
        assert "" + ['/'] + "" == "/";
      } else {
        var body := Join(names, '/');
        SplitOfJoin(names, '/');
        SplitOfPlain("", '/');
        SplitAt(body, "", '/');
        assert body + ['/'] + "" == body + "/";
        SplitAt("", body + "/", '/');
        assert "" + ['/'] + (body + "/") == "/" + body + "/";
      }
    }
    ResolvedOne([""], names, [""], true);
    PlainStay(names, [], true);
    DropsSelf([], "x", true);
    DropsSelf(names, "x", true);
    assert [] + names == names;
  }

  /** The directory of an absolute path of plain names is that path without the last one. */
  lemma DirOfPlain(names: seq<string>, last: string)
    requires PlainName(last) && forall n :: n in names ==> PlainName(n)
    ensures names == [] ==> Dir("/" + last) == "/"
    ensures names != [] ==> Dir("/" + Join(names, '/') + "/" + last) == "/" + Join(names, '/')
  {
    CleanRooted(names);
    FolderOfSibling(Rooted(names), last);
    FolderEnds(names);
    hide Join, Clean, Folder;
    assert names == [] ==> "/" + "" == "/";
  }

  lemma FolderEnds(names: seq<string>)
    ensures Folder(Rooted(names)) == Rooted(names)
  {
    hide Join;
  }

  lemma {:induction false} FolderOfSibling(path: string, suffix: string)
    requires '/' !in suffix
    ensures Folder(path + suffix) == Folder(path)
  {
    if suffix == "" {
      assert path + suffix == path;
    } else {
      var n := |suffix| - 1;
      assert (path + suffix)[..|path| + n] == path + suffix[..n];
      FolderOfSibling(path, suffix[..n]);
    }
  }

  /** The process id as printed into file names. */
  predicate Number(pid: string) {
    forall i :: 0 <= i < |pid| ==> '0' <= pid[i] <= '9'
  }

  function Prepared(path: string, pid: string): string {
    path + (".prepared-" + pid)
  }

  function Staged(path: string, pid: string): string {
    path + (".new-" + pid)
  }

  function Backup(path: string, pid: string): string {
    path + (".old-" + pid)
  }

  lemma SiblingDir(path: string, role: string, pid: string)
    requires Number(pid) && '/' !in role
    ensures Dir(path + (role + pid)) == Dir(path)
  {
    hide Clean;
    FolderOfSibling(path, role + pid);
  }

  /** The three names are in the executable's directory and differ from it and from each other. */
  lemma Names(path: string, pid: string)
    requires Number(pid)
    ensures Dir(Prepared(path, pid)) == Dir(path) && Dir(Staged(path, pid)) == Dir(path) && Dir(Backup(path, pid)) == Dir(path)
    ensures Staged(path, pid) != Backup(path, pid) && Prepared(path, pid) != Backup(path, pid)
    ensures Prepared(path, pid) != "" && path != Prepared(path, pid) && path != Staged(path, pid) && path != Backup(path, pid)
  {
    SiblingDir(path, ".prepared-", pid);
    SiblingDir(path, ".new-", pid);
    SiblingDir(path, ".old-", pid);
    hide Dir, Number;
    assert Staged(path, pid)[|path| + 1] == 'n' && Backup(path, pid)[|path| + 1] == 'o' && Prepared(path, pid)[|path| + 1] == 'p';
    assert |path| < |Prepared(path, pid)| && |path| < |Staged(path, pid)| && |path| < |Backup(path, pid)|;
  }

  // ----- replacing

  /** Which of the file operations work. */
  datatype Faults = Faults(copy: CopyFate, removeStaged: bool, moveAside: bool, install: bool, rollback: bool, removeSource: bool)

  datatype Outcome = Replaced(backup: string) | Rejected | NotCopied | NotMovedAside | NotInstalled

  /** The old bytes are still at the target or its backup, or the complete new ones are at the target. */
  predicate Kept(files: Files, target: string, backup: string, before: bytes, replacement: bytes) {
    (target in files && (files[target] == before || files[target] == replacement)) || (backup in files && files[backup] == before)
  }

  function NewBytes(files: Files, source: string, target: string): bytes
    requires target in files
  {
    if source in files then files[source] else files[target]
  }

  /** What an install comes to: the new bytes at the target, the old ones at the backup. With a
      source that is itself the backup name, the old executable goes aside and comes straight back. */
  function Installed(files: Files, source: string, staged: string, target: string, backup: string): Files
    requires (source in files || source == backup) && target in files
  {
    if source == backup then files - {backup}
    else (files - {staged})[target := files[source]][backup := files[target]]
  }

  predicate Refused(source: string, target: string) {
    source == "" || target == "" || source == target
  }

  predicate Unchanged(a: Files, b: Files, except: set<string>) {
    a - except == b - except
  }

  /** The files after each outcome. A failure leaves everything but the two scratch names as it was,
      unless putting the old executable back failed too: then it is at the backup. */
  predicate Result(before: Files, after: Files, source: string, staged: string, target: string, backup: string,
                   faults: Faults, outcome: Outcome) {
    match outcome
    case Rejected => after == before
    case NotCopied => staged != source && Unchanged(after, before, {staged})
    case NotMovedAside => if staged == source then after == before else Unchanged(after, before, {staged})
    case NotInstalled =>
      target in before &&
      (if faults.rollback then Unchanged(after, before, {staged, backup})
       else Unchanged(after, before, {staged, backup, target}) && target !in after && backup in after && after[backup] == before[target])
    case Replaced(name) =>
      name == backup && (source in before || source == backup) && target in before &&
      after == if staged != source && faults.removeSource then Installed(before, source, staged, target, backup) - {source}
               else Installed(before, source, staged, target, backup)
  }

  /** Every other file is as it was. */
  ghost predicate Touches(before: Files, after: Files, paths: set<string>) {
    forall path :: path !in paths ==> (path in after <==> path in before) && (path in before ==> after[path] == before[path])
  }

  /** A success leaves the new bytes at the target and the old ones at the backup, and the source and
      the staged copy are gone, the source of another directory if its removal works. */
  ghost predicate Exchanged(before: Files, after: Files, source: string, staged: string, target: string, backup: string, removed: bool) {
    && source in before && target in before
    && target in after && after[target] == before[source] && backup in after && after[backup] == before[target]
    && staged !in after && (source in after <==> source != staged && !removed)
  }

  lemma UnchangedTouches(before: Files, after: Files, except: set<string>)
    requires Unchanged(after, before, except)
    ensures Touches(before, after, except)
  {
    forall path | path !in except
      ensures (path in after <==> path in before) && (path in before ==> after[path] == before[path])
    {
      assert path in after <==> path in after - except;
      assert path in before <==> path in before - except;
      if path in before {
        assert (after - except)[path] == after[path] && (before - except)[path] == before[path];
      }
    }
  }

  lemma ResultTouches(before: Files, after: Files, source: string, staged: string, target: string, backup: string,
                      faults: Faults, outcome: Outcome)
    requires Result(before, after, source, staged, target, backup, faults, outcome)
    ensures Touches(before, after, {source, staged, target, backup})
    ensures outcome.Replaced? && source != backup && source != target && staged != target && staged != backup && target != backup ==>
      Exchanged(before, after, source, staged, target, backup, faults.removeSource)
  {
    forall except: set<string> | Unchanged(after, before, except) ensures Touches(before, after, except) {
      UnchangedTouches(before, after, except);
    }
    if !outcome.Replaced? {
      hide Touches, Unchanged;
      TouchesMore(before, after, source, staged, target, backup);
    }
  }

  lemma TouchesMore(before: Files, after: Files, source: string, staged: string, target: string, backup: string)
    ensures Touches(before, after, {staged}) ==> Touches(before, after, {source, staged, target, backup})
    ensures Touches(before, after, {staged, backup}) ==> Touches(before, after, {source, staged, target, backup})
    ensures Touches(before, after, {staged, backup, target}) ==> Touches(before, after, {source, staged, target, backup})
    ensures after == before ==> Touches(before, after, {source, staged, target, backup})
  {
  }

  predicate AllWork(faults: Faults) {
    faults.copy.Done? && faults.moveAside && faults.install
  }

  function StagedFor(source: string, target: string, pid: string): string {
    if Dir(source) == Dir(target) then source else Staged(target, pid)
  }

  /** Every state from `start` on keeps the old bytes or has the new ones. */
  predicate KeptSince(history: seq<Files>, start: nat, target: string, backup: string, before: bytes, replacement: bytes) {
    forall i :: start <= i < |history| ==> Kept(history[i], target, backup, before, replacement)
  }

  lemma Elsewhere(a: Files, b: Files, path: string, other: string)
    requires SameBut(a, b, path) && other != path
    ensures other in a <==> other in b
    ensures other in a ==> a[other] == b[other]
  {
    assert other in a <==> other in a - {path};
    assert other in b <==> other in b - {path};
    assert other in a ==> (a - {path})[other] == a[other];
    assert other in b ==> (b - {path})[other] == b[other];
  }

  lemma CopyKeeps(before: Files, history: seq<Files>, start: nat, staged: string, target: string, backup: string)
    requires staged != target && forall i :: start <= i < |history| ==> SameBut(history[i], before, staged)
    ensures target in before ==> forall replacement :: KeptSince(history, start, target, backup, before[target], replacement)
  {
    forall i | start <= i < |history| ensures target in before ==> target in history[i] && history[i][target] == before[target] {
      Elsewhere(history[i], before, staged, target);
    }
  }

  lemma KeptJoins(first: seq<Files>, all: seq<Files>, start: nat, target: string, backup: string, before: bytes,
                  replacement: bytes)
    requires Extends(all, first) && start <= |first|
    requires KeptSince(first, start, target, backup, before, replacement) && KeptSince(all, |first|, target, backup, before, replacement)
    ensures KeptSince(all, start, target, backup, before, replacement)
  {
    assert forall i :: 0 <= i < |first| ==> all[i] == all[..|first|][i];
  }

  lemma KeptOne(history: seq<Files>, next: Files, start: nat, target: string, backup: string, before: bytes, replacement: bytes)
    requires KeptSince(history, start, target, backup, before, replacement) && Kept(next, target, backup, before, replacement)
    ensures KeptSince(history + [next], start, target, backup, before, replacement)
  {
  }

  /** The renames: the old executable aside, the new one in, and back if that fails. */
  method SwapIn(fs: FileSystem, staged: string, target: string, backup: string, faults: Faults) returns (outcome: Outcome)
    requires target != backup && target != staged
    modifies fs
    ensures Swapped(old(fs.files), fs.files, staged, target, backup, faults, outcome)
    ensures faults.moveAside && faults.install && staged in old(fs.files) && target in old(fs.files) ==> outcome.Replaced?
    ensures Extends(fs.history, old(fs.history))
    ensures target in old(fs.files) ==>
      KeptSince(fs.history, |old(fs.history)|, target, backup, old(fs.files)[target], NewBytes(old(fs.files), staged, target))
  {
    var moved := fs.Rename(target, backup, faults.moveAside);
    if !moved {
      return NotMovedAside;
    }
    var installed := fs.Rename(staged, target, faults.install);
    if !installed {
      ghost var aside := fs.files;
      assert MovedAside(old(fs.files), aside, target, backup);
      var restored := fs.Rename(backup, target, faults.rollback);
      assert restored ==> fs.files == old(fs.files) - {backup};
      return NotInstalled;
    }
    return Replaced(backup);
  }

  /** The files after each outcome of the renames. */
  predicate Swapped(before: Files, after: Files, staged: string, target: string, backup: string, faults: Faults,
                    outcome: Outcome) {
    match outcome
    case NotMovedAside => after == before
    case NotInstalled => target in before && (if faults.rollback then after == before - {backup}
      else MovedAside(before, after, target, backup))
    case Replaced(name) =>
      name == backup && (staged in before || staged == backup) && target in before &&
      after == Installed(before, staged, staged, target, backup)
    case _ => false
  }

  /** Copying the source in, swapping and cleaning up, together. */
  lemma CopiedResult(before: Files, swapped: Files, after: Files, source: string, staged: string, target: string,
                     backup: string, faults: Faults, outcome: Outcome)
    requires staged != source && staged != target && staged != backup && target != backup && source != backup && source != target
    requires source in before && Swapped(before[staged := before[source]], swapped, staged, target, backup, faults, outcome)
    requires
      var (path, works) := if outcome.Replaced? then (source, faults.removeSource) else (staged, faults.removeStaged);
      after == if works then swapped - {path} else swapped
    ensures Result(before, after, source, staged, target, backup, faults, outcome)
  {
    var mid := before[staged := before[source]];
    assert mid - {staged} == before - {staged};
    if outcome.Replaced? {
      assert Installed(mid, staged, staged, target, backup) == Installed(before, source, staged, target, backup);
    }
  }

  lemma NotCopiedResult(before: Files, after: Files, source: string, staged: string, target: string, backup: string,
                        faults: Faults)
    requires staged != source && SameBut(after, before, staged)
    ensures Result(before, after, source, staged, target, backup, faults, NotCopied)
  {
  }

  predicate MovedAside(before: Files, after: Files, target: string, backup: string)
    requires target in before
  {
    after == (before - {target})[backup := before[target]]
  }

  lemma LiteralNames(target: string, pid: string)
    ensures target + ".new-" + pid == Staged(target, pid) && target + ".old-" + pid == Backup(target, pid)
  {
  }

  lemma TouchesAll(before: Files, after: Files, source: string, staged: string, scratch: string, target: string, backup: string)
    requires Touches(before, after, {source, staged, target, backup}) && (staged == source || staged == scratch)
    ensures Touches(before, after, {source, target, scratch, backup})
  {
  }

  /** The exchange. A success has the new bytes at the target, unless the source had the backup's
      name: then the old executable went aside onto it and came straight back. */
  method ReplaceExecutable(fs: FileSystem, source: string, target: string, pid: string, faults: Faults) returns (outcome: Outcome)
    requires Number(pid)
    modifies fs
    ensures outcome.Rejected? <==> Refused(source, target)
    ensures Result(old(fs.files), fs.files, source, StagedFor(source, target, pid), target, Backup(target, pid), faults, outcome)
    ensures outcome.Replaced? ==> target in old(fs.files) && (source in old(fs.files) || source == Backup(target, pid))
    ensures outcome.Replaced? ==> Holds(fs.files, target, old(fs.files)[if source == Backup(target, pid) then target else source])
    ensures !Refused(source, target) && AllWork(faults) && source in old(fs.files) && target in old(fs.files) ==> outcome.Replaced?
    ensures Touches(old(fs.files), fs.files, {source, target, target + ".new-" + pid, target + ".old-" + pid})
    ensures outcome.Replaced? && source != target + ".old-" + pid ==>
      Exchanged(old(fs.files), fs.files, source, StagedFor(source, target, pid), target, target + ".old-" + pid, faults.removeSource)
    ensures Extends(fs.history, old(fs.history))
    ensures target in old(fs.files) ==>
      KeptSince(fs.history, |old(fs.history)|, target, Backup(target, pid), old(fs.files)[target], NewBytes(old(fs.files), source, target))
  {
    hide Dir, Holds;
    if source == "" || target == "" {
      return Rejected;
    }
    if source == target {
      return Rejected;
    }
    Names(target, pid);
    LiteralNames(target, pid);
    hide Staged, Backup, Number, Installed, Touches, Exchanged;
    var backup := Backup(target, pid);
    if Dir(source) == Dir(target) {
      outcome := SwapIn(fs, source, target, backup, faults);
      ResultTouches(old(fs.files), fs.files, source, source, target, backup, faults, outcome);
      TouchesAll(old(fs.files), fs.files, source, source, Staged(target, pid), target, backup);
      if outcome.Replaced? {
        SuccessHolds(old(fs.files), fs.files, source, source, target, backup, faults);
      }
      return;
    }
    var staged := Staged(target, pid);
    outcome := ReplaceByCopy(fs, source, staged, target, backup, faults);
    ResultTouches(old(fs.files), fs.files, source, staged, target, backup, faults, outcome);
    TouchesAll(old(fs.files), fs.files, source, staged, staged, target, backup);
    if outcome.Replaced? {
      SuccessHolds(old(fs.files), fs.files, source, staged, target, backup, faults);
    }
  }

  /** The same from another directory: the source is copied in first, and cleaned up after. */
  method ReplaceByCopy(fs: FileSystem, source: string, staged: string, target: string, backup: string,
                       faults: Faults) returns (outcome: Outcome)
    requires staged != source && staged != target && staged != backup && target != backup && source != backup && source != target
    modifies fs
    ensures !outcome.Rejected?
    ensures Result(old(fs.files), fs.files, source, staged, target, backup, faults, outcome)
    ensures AllWork(faults) && source in old(fs.files) && target in old(fs.files) ==> outcome.Replaced?
    ensures Extends(fs.history, old(fs.history))
    ensures target in old(fs.files) ==>
      KeptSince(fs.history, |old(fs.history)|, target, backup, old(fs.files)[target], NewBytes(old(fs.files), source, target))
  {
    hide Result;
    var copied := fs.CopyFile(source, staged, faults.copy);
    CopyKeeps(old(fs.files), fs.history, |old(fs.history)|, staged, target, backup);
    if !copied {
      assert Result(old(fs.files), fs.files, source, staged, target, backup, faults, NotCopied) by {
        NotCopiedResult(old(fs.files), fs.files, source, staged, target, backup, faults);
      }
      return NotCopied;
    }
    ghost var (mid, states, start) := (fs.files, fs.history, |old(fs.history)|);
    outcome := SwapIn(fs, staged, target, backup, faults);
    ghost var (swapped, swappedFiles) := (fs.history, fs.files);
    if outcome.Replaced? {
      fs.Remove(source, faults.removeSource);
    } else {
      fs.Remove(staged, faults.removeStaged);
    }
    CopiedResult(old(fs.files), swappedFiles, fs.files, source, staged, target, backup, faults, outcome);
    if target in old(fs.files) {
      ghost var (before, replacement) := (mid[target], NewBytes(mid, staged, target));
      KeptJoins(states, swapped, start, target, backup, before, replacement);
      assert Kept(fs.files, target, backup, before, replacement);
      KeptOne(swapped, fs.files, start, target, backup, before, replacement);
    }
  }

  // ----- the two users

  predicate Holds(files: Files, path: string, data: bytes) {
    path in files && files[path] == data
  }

  datatype HelperOutcome = Updated | Incomplete | ParentStillRuns | NotReplaced(outcome: Outcome)

  /** The update helper, after the service was asked to stop: wait, replace, drop the backup. */
  method RunUpdateHelper(fs: FileSystem, source: string, target: string, parent: int, parentExits: bool, pid: string,
                         faults: Faults, dropBackup: bool)
      returns (outcome: HelperOutcome)
    requires Number(pid)
    modifies fs
    ensures outcome.Incomplete? <==> source == "" || target == "" || parent <= 0
    ensures outcome.ParentStillRuns? <==> !outcome.Incomplete? && !parentExits
    ensures outcome.Incomplete? || outcome.ParentStillRuns? ==> fs.files == old(fs.files)
    ensures outcome.NotReplaced? ==> !AllWork(faults) || source == target || source !in old(fs.files) || target !in old(fs.files)
    ensures outcome.NotReplaced? ==> !outcome.outcome.Replaced?
    ensures outcome.NotReplaced? ==>
      Result(old(fs.files), fs.files, source, StagedFor(source, target, pid), target, Backup(target, pid), faults, outcome.outcome)
    ensures outcome.Updated? && source != Backup(target, pid) ==> source in old(fs.files) && Holds(fs.files, target, old(fs.files)[source])
    ensures outcome.Updated? && dropBackup ==> Backup(target, pid) !in fs.files
    ensures Extends(fs.history, old(fs.history))
    ensures target in old(fs.files) ==>
      KeptSince(fs.history, |old(fs.history)|, target, Backup(target, pid), old(fs.files)[target], NewBytes(old(fs.files), source, target))
  {
    hide Dir, Backup, Staged;
    if source == "" || target == "" || parent <= 0 {
      return Incomplete;
    }
    if !parentExits {
      return ParentStillRuns;
    }
    var replaced := ReplaceExecutable(fs, source, target, pid, faults);
    if !replaced.Replaced? {
      return NotReplaced(replaced);
    }
    Names(target, pid);
    SuccessHolds(old(fs.files), fs.files, source, StagedFor(source, target, pid), target, Backup(target, pid), faults);
    hide Result, Installed, StagedFor;
    ghost var states := fs.history;
    fs.Remove(replaced.backup, dropBackup);
    KeptOne(states, fs.files, |old(fs.history)|, target, Backup(target, pid), old(fs.files)[target],
      NewBytes(old(fs.files), source, target));
    return Updated;
  }

  /** Where the bytes are after a successful replacement. */
  lemma SuccessHolds(before: Files, after: Files, source: string, staged: string, target: string, backup: string, faults: Faults)
    requires Result(before, after, source, staged, target, backup, faults, Replaced(backup))
    requires target != backup && target != staged && source != target && (staged == source || (backup != staged && source != backup))
    ensures source == backup ==> Holds(after, target, before[target])
    ensures source != backup ==> source in before && Holds(after, target, before[source]) && Holds(after, backup, before[target])
  {
  }

  datatype ExecOutcome = NotPrepared | NotStopped | ReplaceFailed(outcome: Outcome) | Running | ExecFailed(restored: bool)

  // ----- leftovers

  predicate Sibling(path: string, prefix: string) {
    prefix <= path && '/' !in path[|prefix|..]
  }

  /** A name that an earlier update may have left, as the four patterns match it. */
  predicate Leftover(path: string, updateDir: string, executable: string) {
    Sibling(path, Clean(updateDir + "/.dynapp-update-helper-")) || Sibling(path, executable + ".prepared-") ||
    Sibling(path, executable + ".new-") || Sibling(path, executable + ".old-")
  }

  /** An update helper in the update directory, or a scratch name of the executable, whatever process
      id or other text without a slash it ends in. */
  ghost predicate Stale(path: string, updateDir: string, executable: string) {
    exists end: string :: '/' !in end
      && path in {Clean(updateDir + "/.dynapp-update-helper-") + end, executable + ".prepared-" + end, executable + ".new-" + end,
        executable + ".old-" + end}
  }

  lemma SiblingMeans(path: string, prefix: string)
    ensures Sibling(path, prefix) <==> exists end: string :: '/' !in end && path == prefix + end
  {
    if Sibling(path, prefix) {
      assert path == prefix + path[|prefix|..];
    }
    if end: string :| '/' !in end && path == prefix + end {
      assert path[|prefix|..] == end;
    }
  }

  lemma StaleMeans(updateDir: string, executable: string)
    ensures forall path :: Leftover(path, updateDir, executable) <==> Stale(path, updateDir, executable)
  {
    hide Clean, Sibling;
    forall path ensures Leftover(path, updateDir, executable) <==> Stale(path, updateDir, executable) {
      SiblingMeans(path, Clean(updateDir + "/.dynapp-update-helper-"));
      SiblingMeans(path, executable + ".prepared-");
      SiblingMeans(path, executable + ".new-");
      SiblingMeans(path, executable + ".old-");
    }
  }

  /** Whatever an update of the executable leaves behind, the next one clears. */
  lemma ScratchIsStale(updateDir: string, executable: string, pid: string)
    requires Number(pid)
    ensures Stale(Prepared(executable, pid), updateDir, executable)
    ensures Stale(Staged(executable, pid), updateDir, executable) && Stale(Backup(executable, pid), updateDir, executable)
  {
    hide Clean;
    assert Prepared(executable, pid) == executable + ".prepared-" + pid;
    assert Staged(executable, pid) == executable + ".new-" + pid && Backup(executable, pid) == executable + ".old-" + pid;
  }

  /** The leftovers whose removal works. */
  function Removed(files: Files, updateDir: string, executable: string, works: string -> bool): set<string> {
    set path | path in files && Leftover(path, updateDir, executable) && works(path)
  }

  /** Files of `before`, unchanged, at most those in `gone` missing. */
  predicate Within(files: Files, before: Files, gone: set<string>) {
    files.Keys <= before.Keys && before.Keys - gone <= files.Keys && forall path :: path in files ==> files[path] == before[path]
  }

  ghost predicate WithinSince(history: seq<Files>, start: nat, before: Files, gone: set<string>) {
    forall i :: start <= i < |history| ==> Within(history[i], before, gone)
  }

  /** Removes leftovers one by one, in any order, and touches no other file at any moment. */
  method CleanupStale(fs: FileSystem, updateDir: string, executable: string, works: string -> bool)
    modifies fs
    ensures fs.files == old(fs.files) - Removed(old(fs.files), updateDir, executable, works)
    ensures forall path :: path in fs.files <==> path in old(fs.files) && !(works(path) && Stale(path, updateDir, executable))
    ensures Extends(fs.history, old(fs.history))
    ensures WithinSince(fs.history, |old(fs.history)|, old(fs.files), Removed(old(fs.files), updateDir, executable, works))
  {
    StaleMeans(updateDir, executable);
    hide Leftover, Stale;
    var before := fs.files;
    ghost var all := Removed(before, updateDir, executable, works);
    var left := before.Keys;
    ghost var gone: set<string> := {};
    while left != {}
      invariant left <= before.Keys
      invariant gone == set path | path in before && path !in left && Leftover(path, updateDir, executable) && works(path)
      invariant gone <= all && fs.files == before - gone
      invariant Extends(fs.history, old(fs.history))
      invariant WithinSince(fs.history, |old(fs.history)|, before, all)
      decreases left
    {
      var path :| path in left;
      left := left - {path};
      if Leftover(path, updateDir, executable) {
        ghost var states := fs.history;
        fs.Remove(path, works(path));
        gone := gone + if works(path) then {path} else {};
        assert Within(fs.files, before, all);
        assert fs.history == states + [fs.files];
      }
    }
    assert gone == all;
  }

  /** The Unix update of a per-user agent: clear leftovers, prepare, stop, replace, and exec the new
      executable; when the exec fails the old one is renamed back. Only the exec itself never
      returns. A download that has a leftover's name is gone before it is copied. */
  method ExecInstalledUpdate(fs: FileSystem, downloaded: string, executable: string, pid: string,
                             clears: string -> bool, prepare: CopyFate,
                             stops: bool, faults: Faults, execs: bool, restores: bool, cleans: bool) returns (outcome: ExecOutcome)
    requires Number(pid)
    modifies fs
    ensures ExecResult(Cleared(old(fs.files), downloaded, executable, clears), fs.files, downloaded, executable,
      pid, prepare, stops, faults, execs, restores, outcome)
    ensures Extends(fs.history, old(fs.history))
    ensures executable in old(fs.files) && !Leftover(executable, Dir(downloaded), executable) ==>
      downloaded in Cleared(old(fs.files), downloaded, executable, clears) ==>
      KeptSince(fs.history, |old(fs.history)|, executable, Backup(executable, pid), old(fs.files)[executable],
        Copied(old(fs.files), downloaded, Prepared(executable, pid)))
  {
    hide Dir, Leftover, ExecResult, Copied, Prepared, Backup;
    ghost var (before, start) := (fs.files, |fs.history|);
    CleanupStale(fs, Dir(downloaded), executable, clears);
    ghost var (cleared, states) := (fs.files, fs.history);
    assert cleared == Cleared(before, downloaded, executable, clears);
    outcome := PrepareAndExec(fs, downloaded, executable, pid, prepare, stops, faults, execs, restores, cleans);
    if executable in before && !Leftover(executable, Dir(downloaded), executable) && downloaded in cleared {
      assert executable !in Removed(before, Dir(downloaded), executable, clears);
      assert executable in cleared;
      ghost var (backup, replacement) := (Backup(executable, pid), Copied(before, downloaded, Prepared(executable, pid)));
      SameCopy(before, cleared, downloaded, Prepared(executable, pid));
      assert KeptSince(states, start, executable, backup, before[executable], replacement);
      KeptJoins(states, fs.history, start, executable, backup, before[executable], replacement);
    }
  }

  lemma SameCopy(a: Files, b: Files, from: string, to: string)
    requires from in a && from in b && a[from] == b[from]
    ensures Copied(a, from, to) == Copied(b, from, to)
  {
  }

  function Cleared(files: Files, downloaded: string, executable: string, clears: string -> bool): Files {
    files - Removed(files, Dir(downloaded), executable, clears)
  }

  /** What the update comes to, from the cleared files. */
  predicate ExecResult(before: Files, after: Files, downloaded: string, executable: string, pid: string,
                       prepare: CopyFate, stops: bool,
                       faults: Faults, execs: bool, restores: bool, outcome: ExecOutcome) {
    (outcome.NotPrepared? <==> !prepare.Done? || downloaded !in before) &&
    (outcome.NotStopped? <==> !outcome.NotPrepared? && !stops) &&
    (outcome.Running? ==> execs) && (outcome.ExecFailed? ==> !execs && (outcome.restored <==> restores)) &&
    (outcome.ReplaceFailed? ==> !AllWork(faults) || executable == "" || executable !in before) &&
    (outcome.NotPrepared? || outcome.NotStopped? ==> Unchanged(after, before, {Prepared(executable, pid)})) &&
    (outcome.Running? || outcome == ExecFailed(false) ==> PutInPlace(before, after, downloaded, executable, pid)) &&
    (outcome == ExecFailed(true) ==> executable in before && Holds(after, executable, before[executable])) &&
    (outcome.ReplaceFailed? && faults.rollback && executable in before ==> Holds(after, executable, before[executable]))
  }

  /** The update once the leftovers are cleared. */
  method PrepareAndExec(fs: FileSystem, downloaded: string, executable: string, pid: string, prepare: CopyFate, stops: bool,
                        faults: Faults, execs: bool, restores: bool, cleans: bool) returns (outcome: ExecOutcome)
    requires Number(pid)
    modifies fs
    ensures ExecResult(old(fs.files), fs.files, downloaded, executable, pid, prepare, stops, faults, execs, restores, outcome)
    ensures Extends(fs.history, old(fs.history))
    ensures executable in old(fs.files) && downloaded in old(fs.files) ==>
      KeptSince(fs.history, |old(fs.history)|, executable, Backup(executable, pid), old(fs.files)[executable],
        Copied(old(fs.files), downloaded, Prepared(executable, pid)))
  {
    hide Dir, Prepared, Backup, Staged, Copied;
    Names(executable, pid);
    var prepared, backup := Prepared(executable, pid), Backup(executable, pid);
    ghost var (start, before) := (|fs.history|, fs.files);
    var copied := fs.CopyFile(downloaded, prepared, prepare);
    CopyKeeps(before, fs.history, start, prepared, executable, backup);
    if !copied {
      return NotPrepared;
    }
    ghost var (mid, states) := (fs.files, fs.history);
    if !stops {
      fs.Remove(prepared, cleans);
      if executable in before {
        KeptOne(states, fs.files, start, executable, backup, before[executable], Copied(before, downloaded, prepared));
      }
      return NotStopped;
    }
    ghost var replacement := Copied(before, downloaded, prepared);
    var replaced := ReplaceExecutable(fs, prepared, executable, pid, faults);
    ghost var swapped := fs.history;
    if executable in before {
      KeptJoins(states, swapped, start, executable, backup, before[executable], replacement);
    }
    hide KeptSince, Kept;
    if !replaced.Replaced? {
      if executable in mid {
        FailureHolds(mid, fs.files, prepared, prepared, executable, backup, faults, replaced);
      }
      return ReplaceFailed(replaced);
    }
    SuccessHolds(mid, fs.files, prepared, prepared, executable, backup, faults);
    hide Result;
    outcome := ExecOrRestore(fs, executable, backup, before[executable], replacement, execs, restores, cleans);
    KeptJoins(swapped, fs.history, start, executable, backup, before[executable], replacement);
  }

  /** The last steps: exec, or else the old executable back. */
  method ExecOrRestore(fs: FileSystem, executable: string, backup: string, ghost before: bytes, ghost replacement: bytes,
                       execs: bool, restores: bool, cleans: bool) returns (outcome: ExecOutcome)
    requires executable != backup && Holds(fs.files, executable, replacement) && Holds(fs.files, backup, before)
    modifies fs
    ensures outcome == if execs then Running else ExecFailed(restores)
    ensures outcome == ExecFailed(true) ==> Holds(fs.files, executable, before)
    ensures outcome != ExecFailed(true) ==> Holds(fs.files, executable, replacement) && Holds(fs.files, backup, before)
    ensures Extends(fs.history, old(fs.history))
    ensures KeptSince(fs.history, |old(fs.history)|, executable, backup, before, replacement)
  {
    if execs {
      return Running;
    }
    var restored := fs.Rename(backup, executable, restores);
    if restored {
      fs.Remove(backup, cleans);
    }
    return ExecFailed(restored);
  }

  /** A failed replacement that could put the old executable back has it at the target. */
  lemma FailureHolds(before: Files, after: Files, source: string, staged: string, target: string, backup: string,
                     faults: Faults, outcome: Outcome)
    requires Result(before, after, source, staged, target, backup, faults, outcome) && !outcome.Replaced?
    requires target != backup && target != staged && target in before
    ensures faults.rollback ==> Holds(after, target, before[target])
    ensures Holds(after, target, before[target]) || Holds(after, backup, before[target])
  {
    var scratch := {staged, backup};
    assert target in before - scratch && target in before - {staged};
    assert (before - scratch)[target] == (before - {staged})[target] == before[target];
    assert outcome.NotInstalled? && faults.rollback ==> target in after - scratch && (after - scratch)[target] == after[target];
    var without := after - {staged};
    assert outcome.NotCopied? || outcome.NotMovedAside? ==>
      target in after && (target in without ==> without[target] == after[target]);
  }

  /** The downloaded bytes at the executable and the old ones at its backup. Only a download that
      already has the prepared name is lost: the copy truncates it first. */
  predicate PutInPlace(before: Files, after: Files, downloaded: string, executable: string, pid: string) {
    downloaded in before && executable in before &&
    Holds(after, executable, Copied(before, downloaded, Prepared(executable, pid))) &&
      Holds(after, Backup(executable, pid), before[executable])
  }
}
