/** Applying a downloaded update: the payload's files are copied over the installation, each after a backup
    of what it replaces, and rolled back in reverse when any step fails. Files are known by their path
    relative to the installation; source, target and backup are apart. */
module Updater {

  datatype Option<T> = None | Some(value: T)

  type Path = string

  type Content = seq<int>

  type Files = map<Path, Content>

  const APPLY: string := "--sharpemu-apply-update"
  const LOG: Path := "update-error.log"

  function At(files: Files, p: Path): Option<Content> {
    if p in files then Some(files[p]) else None
  }

  function Put(files: Files, p: Path, content: Option<Content>): (r: Files)
    ensures At(r, p) == content && forall q :: q != p ==> At(r, q) == At(files, q)
  {
    match content case None => files - {p} case Some(c) => files[p := c]
  }

  // ---- which files are left alone ----

  function Fold(c: char): char {
    if 'A' <= c <= 'Z' then 'a' + (c - 'A') else c
  }

  /** Equal up to the case of ASCII letters. */
  predicate SameIgnoringCase(a: string, b: string) {
    |a| == |b| && forall k :: 0 <= k < |a| ==> Fold(a[k]) == Fold(b[k])
  }

  predicate StartsIgnoringCase(a: string, b: string) {
    |a| >= |b| && SameIgnoringCase(a[..|b|], b)
  }

  /** Settings, and everything below the user's directories. */
  predicate Excluded(relative: Path, separator: char) {
    || SameIgnoringCase(relative, "gui-settings.json")
    || StartsIgnoringCase(relative, "user" + [separator])
    || StartsIgnoringCase(relative, "logs" + [separator])
    || StartsIgnoringCase(relative, "Languages" + [separator])
  }

  /** Spelled with small or capital letters for the small ones of the name. */
  predicate Spells(text: string, name: string) {
    && |text| == |name|
    && forall k :: 0 <= k < |name| ==>
         text[k] == name[k] || ('a' <= name[k] <= 'z' && text[k] as int == name[k] as int - 32)
  }

  /** The part of a path before its first separator, when it has one. */
  function FirstFolder(p: Path, separator: char): Option<string> {
    if p == [] then None
    else if p[0] == separator then Some([])
    else match FirstFolder(p[1..], separator) case None => None case Some(rest) => Some([p[0]] + rest)
  }

  lemma {:induction false} FirstFolderIs(p: Path, separator: char, n: nat)
    requires n < |p| && p[n] == separator && separator !in p[..n]
    ensures FirstFolder(p, separator) == Some(p[..n])
  {
    if n > 0 {
      assert p[0] in p[..n] && p[1..][..n - 1] == p[..n][1..];
      FirstFolderIs(p[1..], separator, n - 1);
      assert p[..n] == [p[0]] + p[1..][..n - 1];
    }
  }

  lemma {:induction false} FolderEnds(p: Path, separator: char)
    requires FirstFolder(p, separator).Some?
    ensures var n := |FirstFolder(p, separator).value|;
      n < |p| && p[n] == separator && separator !in p[..n] && p[..n] == FirstFolder(p, separator).value
  {
    if p[0] != separator {
      FolderEnds(p[1..], separator);
      var n := |FirstFolder(p, separator).value|;
      assert p[..n] == [p[0]] + p[1..][..n - 1];
    }
  }

  predicate IsLetter(c: char) {
    'a' <= c <= 'z' || 'A' <= c <= 'Z'
  }

  lemma SameIsSpells(text: string, name: string)
    requires forall k :: 0 <= k < |name| ==> !('A' <= name[k] <= 'Z')
    ensures SameIgnoringCase(text, name) <==> Spells(text, name)
  {
    forall k | 0 <= k < |text| && k < |name|
      ensures Fold(text[k]) == Fold(name[k]) <==>
        text[k] == name[k] || ('a' <= name[k] <= 'z' && text[k] as int == name[k] as int - 32)
    {
    }
  }

  lemma StartsInFolder(p: Path, name: string, lower: string, separator: char)
    requires |name| == |lower| && forall k :: 0 <= k < |name| ==> IsLetter(name[k]) && Fold(name[k]) == lower[k]
    requires !IsLetter(separator)
    ensures StartsIgnoringCase(p, name + [separator])
       <==> FirstFolder(p, separator).Some? && Spells(FirstFolder(p, separator).value, lower)
  {
    var n := |name|;
    assert (name + [separator])[..n] == name;
    if StartsIgnoringCase(p, name + [separator]) {
      var head := p[..n + 1];
      assert forall k :: 0 <= k < n ==> Fold(head[k]) == Fold((name + [separator])[k]) == lower[k];
      assert Fold(head[n]) == Fold((name + [separator])[n]) == separator;
      assert p[n] == separator;
      assert forall k :: 0 <= k < n ==> p[k] != separator;
      FirstFolderIs(p, separator, n);
    }
    if FirstFolder(p, separator).Some? && Spells(FirstFolder(p, separator).value, lower) {
      FolderEnds(p, separator);
      var head := p[..n + 1];
      assert forall k :: 0 <= k < n ==> Fold(head[k]) == Fold((name + [separator])[k]);
    }
  }

  /** What an update leaves alone, in any spelling: the settings file, and every file whose first folder is the
      user's, the logs' or the languages'. */
  lemma ExcludedIff(p: Path, separator: char)
    requires !IsLetter(separator)
    ensures Excluded(p, separator) <==>
      || Spells(p, "gui-settings.json")
      || (FirstFolder(p, separator).Some? && (Spells(FirstFolder(p, separator).value, "user")
          || Spells(FirstFolder(p, separator).value, "logs") || Spells(FirstFolder(p, separator).value, "languages")))
  {
    hide StartsIgnoringCase, SameIgnoringCase, Spells, FirstFolder;
    SameIsSpells(p, "gui-settings.json");
    StartsInFolder(p, "user", "user", separator);
    StartsInFolder(p, "logs", "logs", separator);
    StartsInFolder(p, "Languages", "languages", separator);
  }

  // ---- what can happen ----

  /** To one file: nothing; a failure before anything in the target changes; a copy that stops and leaves
      anything or nothing; a copy whose file mode is refused. */
  datatype Event = Fine | FailsBefore | FailsCopying(left: Option<Content>) | FailsMode

  /** To one file's rollback: nothing, or a failure that leaves anything or nothing. */
  datatype Undo = Undone | Refused(left: Option<Content>)

  /** `waited` says whether the old process closed, `started` whether the new one started. */
  datatype World = World(waited: bool, events: seq<Event>, started: bool, undo: seq<Undo>, log: Option<Content>)

  predicate AllFine(order: seq<Path>, separator: char, events: seq<Event>)
    requires |events| == |order|
  {
    forall k :: 0 <= k < |order| && !Excluded(order[k], separator) ==> events[k] == Fine
  }

  // ---- copying and rolling back ----

  /** A changed file and, when it replaced one, the backup. */
  datatype Change = Change(destination: Path, backup: Option<Content>)

  predicate Distinct(order: seq<Path>) {
    forall i, j :: 0 <= i < j < |order| ==> order[i] != order[j]
  }

  /** The changes so far: distinct files of the payload, none of them excluded, with what was there before. */
  predicate Recorded(changed: seq<Change>, done: seq<Path>, separator: char, before: Files) {
    && (forall i, j :: 0 <= i < j < |changed| ==> changed[i].destination != changed[j].destination)
    && (forall i :: 0 <= i < |changed| ==>
          && changed[i].destination in done && !Excluded(changed[i].destination, separator)
          && changed[i].backup == At(before, changed[i].destination))
  }

  predicate Touched(changed: seq<Change>, p: Path) {
    exists i :: 0 <= i < |changed| && changed[i].destination == p
  }

  /** Only changed files differ from before. */
  ghost predicate OnlyChanged(changed: seq<Change>, before: Files, files: Files) {
    forall p :: !Touched(changed, p) ==> At(files, p) == At(before, p)
  }

  /** Every file of the payload seen so far is in place unless it is excluded. */
  ghost predicate InPlace(done: seq<Path>, separator: char, source: Files, files: Files) {
    forall p :: p in done && !Excluded(p, separator) ==> At(files, p) == At(source, p)
  }

  lemma ChangeRecorded(changed: seq<Change>, done: seq<Path>, separator: char, before: Files, files: Files, p: Path)
    requires Recorded(changed, done, separator, before) && OnlyChanged(changed, before, files)
    requires p !in done && !Excluded(p, separator)
    ensures Recorded(changed + [Change(p, At(files, p))], done + [p], separator, before)
    ensures forall q :: Touched(changed + [Change(p, At(files, p))], q) <==> Touched(changed, q) || q == p
  {
    hide Excluded;
    var more := changed + [Change(p, At(files, p))];
    assert more[|changed|].destination == p;
    assert !Touched(changed, p);
    forall q ensures Touched(more, q) <==> Touched(changed, q) || q == p {
      if i :| 0 <= i < |changed| && changed[i].destination == q { assert more[i].destination == q; }
    }
  }

  lemma DoneGrows(changed: seq<Change>, done: seq<Path>, separator: char, before: Files, p: Path)
    requires Recorded(changed, done, separator, before)
    ensures Recorded(changed, done + [p], separator, before)
  {
    hide Excluded;
  }

  /** Copies the payload until something fails. */
  method CopyPayload(source: Files, order: seq<Path>, separator: char, before: Files, events: seq<Event>)
    returns (ok: bool, files: Files, changed: seq<Change>)
    requires Distinct(order) && |events| == |order| && forall p :: p in order ==> p in source
    ensures Recorded(changed, order, separator, before) && OnlyChanged(changed, before, files)
    ensures ok <==> AllFine(order, separator, events)
    ensures ok ==> InPlace(order, separator, source, files)
    ensures ok ==> forall p :: Touched(changed, p) <==> p in order && !Excluded(p, separator)
  {
    hide Excluded;
    files, changed := before, [];
    for i := 0 to |order|
      invariant Recorded(changed, order[..i], separator, before) && OnlyChanged(changed, before, files)
      invariant InPlace(order[..i], separator, source, files) && AllFine(order[..i], separator, events[..i])
      invariant forall p :: Touched(changed, p) <==> p in order[..i] && !Excluded(p, separator)
    {
      var relative := order[i];
      assert order[..i + 1] == order[..i] + [relative] && events[..i + 1] == events[..i] + [events[i]];
      assert relative !in order[..i];
      if Excluded(relative, separator) {
        DoneGrows(changed, order[..i], separator, before, relative);
        continue;
      }
      if events[i] == FailsBefore {
        WholeRecorded(changed, order, i, separator, before);
        return false, files, changed;
      }
      var backupFile := At(files, relative);
      ChangeRecorded(changed, order[..i], separator, before, files, relative);
      changed := changed + [Change(relative, backupFile)];
      if events[i].FailsCopying? {
        WholeRecorded(changed, order, i + 1, separator, before);
        return false, Put(files, relative, events[i].left), changed;
      }
      ghost var was := files;
      files := Put(files, relative, Some(source[relative]));
      if events[i] == FailsMode {
        WholeRecorded(changed, order, i + 1, separator, before);
        return false, files, changed;
      }
    }
    assert order[..|order|] == order && events[..|order|] == events;
    ok := true;
  }

  lemma WholeRecorded(changed: seq<Change>, order: seq<Path>, i: nat, separator: char, before: Files)
    requires i <= |order| && Recorded(changed, order[..i], separator, before)
    ensures Recorded(changed, order, separator, before)
  {
    hide Excluded;
  }

  /** What a changed file is after its rollback. */
  function After(change: Change, undo: Undo): Option<Content> {
    match undo case Undone => change.backup case Refused(left) => left
  }

  /** Undoes the changes, the last one first. */
  method Rollback(files0: Files, changed: seq<Change>, undo: seq<Undo>) returns (files: Files)
    requires |undo| >= |changed| && forall i, j :: 0 <= i < j < |changed| ==>
      changed[i].destination != changed[j].destination
    ensures forall i :: 0 <= i < |changed| ==> At(files, changed[i].destination) == After(changed[i], undo[i])
    ensures forall p :: !Touched(changed, p) ==> At(files, p) == At(files0, p)
  {
    files := files0;
    for i := |changed| downto 0
      invariant forall k :: i <= k < |changed| ==> At(files, changed[k].destination) == After(changed[k], undo[k])
      invariant forall p :: !Touched(changed, p) ==> At(files, p) == At(files0, p)
    {
      var change := changed[i];
      assert Touched(changed, change.destination);
      if undo[i].Refused? {
        files := Put(files, change.destination, undo[i].left);
      } else if change.backup.None? {
        files := Put(files, change.destination, None);
      } else {
        files := Put(files, change.destination, change.backup);
      }
    }
  }

  /** The update succeeds exactly when the old process closed, every file was copied and the new process
      started, and then every file that is not excluded is in place. Otherwise each file is what it was, but
      for the error log and the files whose rollback was refused. Excluded files are never written. */
  method TryApply(arguments: seq<string>, source: Files, order: seq<Path>, separator: char, before: Files, world: World)
    returns (taken: bool, exitCode: int, files: Files, changed: seq<Change>)
    requires Distinct(order) && |world.events| == |order| && |world.undo| >= |order|
    requires forall p :: p in order <==> p in source
    ensures taken <==> |arguments| == 3 && arguments[0] == APPLY
    ensures !taken ==> exitCode == 0 && files == before
    ensures taken ==> (exitCode == 0 <==> world.waited && AllFine(order, separator, world.events) && world.started)
    ensures taken && exitCode == 0 ==> forall p ::
      At(files, p) == if p in source && !Excluded(p, separator) then At(source, p) else At(before, p)
    ensures taken && exitCode != 0 ==> exitCode == 1 && |changed| <= |order|
    ensures taken && exitCode != 0 ==> forall i :: 0 <= i < |changed| && changed[i].destination != LOG ==>
      At(files, changed[i].destination) == (match world.undo[i] case Undone => At(before, changed[i].destination)
                                                                case Refused(left) => left)
    ensures taken && exitCode != 0 ==> forall p :: p != LOG && !Touched(changed, p) ==> At(files, p) == At(before, p)
    ensures taken && exitCode != 0 && (forall i :: 0 <= i < |changed| ==> world.undo[i] == Undone) ==>
      forall p :: p != LOG ==> At(files, p) == At(before, p)
    ensures taken ==> forall p :: p != LOG && Excluded(p, separator) ==> At(files, p) == At(before, p)
  {
    hide Excluded;
    if |arguments| != 3 || arguments[0] != APPLY { return false, 0, before, []; }
    taken, exitCode, files, changed := true, 0, before, [];
    var ok := world.waited;
    if ok {
      ok, files, changed := CopyPayload(source, order, separator, before, world.events);
    }
    if ok && world.started {
      return;
    }
    exitCode := 1;
    ChangesFit(changed, order, separator, before);
    files := Rollback(files, changed, world.undo);
    if world.log.Some? {
      files := Put(files, LOG, world.log);
    }
    forall p | Excluded(p, separator) ensures !Touched(changed, p) { }
    assert (forall i :: 0 <= i < |changed| ==> world.undo[i] == Undone) ==>
      forall p :: p != LOG && Touched(changed, p) ==> At(files, p) == At(before, p);
  }

  /** There are no more changes than files. */
  lemma ChangesFit(changed: seq<Change>, order: seq<Path>, separator: char, before: Files)
    requires Recorded(changed, order, separator, before)
    ensures |changed| <= |order|
  {
    var destinations := set i | 0 <= i < |changed| :: changed[i].destination;
    var paths := set p | p in order;
    assert destinations <= paths;
    Injective(changed);
    SetOfSeq(order);
    Subset(destinations, paths);
  }

  lemma {:induction false} Injective(changed: seq<Change>)
    requires forall i, j :: 0 <= i < j < |changed| ==> changed[i].destination != changed[j].destination
    ensures |set i | 0 <= i < |changed| :: changed[i].destination| == |changed|
  {
    var all := set i | 0 <= i < |changed| :: changed[i].destination;
    if changed == [] {
      assert all == {};
    } else {
      var rest := changed[1..];
      var others := set i | 0 <= i < |rest| :: rest[i].destination;
      Injective(rest);
      forall p ensures p in all <==> p == changed[0].destination || p in others {
        if p in all {
          var i :| 0 <= i < |changed| && changed[i].destination == p;
          if i > 0 { assert rest[i - 1].destination == p; }
        }
        if p in others {
          var i :| 0 <= i < |rest| && rest[i].destination == p;
          assert changed[i + 1].destination == p;
        }
      }
      assert changed[0].destination !in others;
      assert all == {changed[0].destination} + others;
    }
  }

  lemma {:induction false} SetOfSeq(order: seq<Path>)
    ensures |set p | p in order| <= |order|
  {
    var all := set p | p in order;
    if order == [] {
      assert all == {};
    } else {
      var shorter, last := order[..|order| - 1], order[|order| - 1];
      var earlier := set p | p in shorter;
      SetOfSeq(shorter);
      assert order == shorter + [last];
      assert all == earlier + {last};
    }
  }

  lemma {:induction false} Subset<T>(a: set<T>, b: set<T>)
    requires a <= b
    ensures |a| <= |b|
  {
    if a != {} {
      var x :| x in a;
      Subset(a - {x}, b - {x});
    }
  }
}
