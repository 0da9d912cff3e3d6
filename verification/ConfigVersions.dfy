/**
  The saved configuration versions (`ConfigVersionManager` in
  src/admin/audit.rs, and the handler that rolls back in
  src/admin/handlers/config.rs): an index of the latest hundred, oldest first,
  over files named by the second in which they were saved. Two saves in one
  second share a file.
 */
module ConfigVersions {
  import opened Basics

  const MAX_CONFIG_VERSIONS: nat := 100

  /** A file in the versions directory, or any other. */
  datatype Path = VersionFile(second: nat) | Other(name: string)

  /** What a file holds: text, or bytes that are not UTF-8 and do not read as text. */
  datatype Data = Text(text: string) | Unreadable

  /** What becomes of writing a file: a write that fails may have emptied the file first. */
  datatype Write = Done | Untouched | Partial(left: Data)

  datatype Version = Version(id: string, path: Path)

  datatype Manager = Manager(versions: seq<Version>, files: map<Path, Data>)

  /**
    A save, with the time it reads off the clock and whether the file of an
    evicted version can be removed; or a version written over another file.
   */
  datatype Op =
    | Save(id: string, second: nat, text: string, write: Write, removes: bool)
    | Rollback(id: string, target: string, write: Write)

  /** What a write puts in the file, if it gets that far. */
  function Put(write: Write, text: string): Option<Data> {
    match write
    case Done => Some(Text(text))
    case Untouched => None
    case Partial(left) => Some(left)
  }

  function Written(files: map<Path, Data>, p: Path, write: Write, text: string): map<Path, Data> {
    match Put(write, text)
    case None => files
    case Some(data) => files[p := data]
  }

  /** The first version with the id. */
  function Find(versions: seq<Version>, id: string): Option<Version> {
    if versions == [] then None
    else if versions[0].id == id then Some(versions[0])
    else Find(versions[1..], id)
  }

  function FileAt(m: Manager, p: Path): Option<Data> {
    if p in m.files then Some(m.files[p]) else None
  }

  function Content(m: Manager, id: string): Option<string> {
    match Find(m.versions, id)
    case None => None
    case Some(v) => if v.path in m.files && m.files[v.path].Text? then Some(m.files[v.path].text) else None
  }

  function Step(m: Manager, op: Op): Manager {
    match op
    case Save(id, second, text, write, removes) =>
      var path := VersionFile(second);
      var files := Written(m.files, path, write, text);
      if write != Done then m.(files := files)
      else if |m.versions| >= MAX_CONFIG_VERSIONS then
        Manager(m.versions[1..] + [Version(id, path)], if removes then files - {m.versions[0].path} else files)
      else
        Manager(m.versions + [Version(id, path)], files)
    case Rollback(id, target, write) =>
      match Content(m, id)
      case None => m
      case Some(text) => m.(files := Written(m.files, Other(target), write, text))
  }

  // ---------------------------------------------------------------------------
  // Histories
  // ---------------------------------------------------------------------------

  const Empty: Manager := Manager([], map[])

  /** The manager after the first `n` operations, starting from an empty directory. */
  function After(ops: seq<Op>, n: nat): Manager
    requires n <= |ops|
  {
    if n == 0 then Empty else Step(After(ops, n - 1), ops[n - 1])
  }

  predicate Succeeds(op: Op) { op.Save? && op.write.Done? }

  /** The successful saves among the first `n` operations. */
  function Saves(ops: seq<Op>, n: nat): seq<nat>
    requires n <= |ops|
  {
    if n == 0 then []
    else Saves(ops, n - 1) + if Succeeds(ops[n - 1]) then [n - 1] else []
  }

  /** How many saves have been evicted from the index. */
  function Evicted(ops: seq<Op>, n: nat): nat
    requires n <= |ops|
  {
    var all := |Saves(ops, n)|;
    if all <= MAX_CONFIG_VERSIONS then 0 else all - MAX_CONFIG_VERSIONS
  }

  /** The saves still in the index. */
  function Kept(ops: seq<Op>, n: nat): (kept: seq<nat>)
    requires n <= |ops|
  {
    Saves(ops, n)[Evicted(ops, n)..]
  }

  /** Operation `j` evicts the version of save `e`. */
  predicate Evicts(ops: seq<Op>, j: nat, e: nat)
    requires j < |ops|
  {
    Succeeds(ops[j]) && |Kept(ops, j)| >= MAX_CONFIG_VERSIONS && Kept(ops, j)[0] == e
  }

  lemma {:induction false} SavesAreSaves(ops: seq<Op>, n: nat)
    requires n <= |ops|
    ensures forall i :: 0 <= i < |Saves(ops, n)| ==> Saves(ops, n)[i] < n && Succeeds(ops[Saves(ops, n)[i]])
    ensures forall i, j :: 0 <= i < j < |Saves(ops, n)| ==> Saves(ops, n)[i] < Saves(ops, n)[j]
  {
    if n > 0 {
      SavesAreSaves(ops, n - 1);
    }
  }

  lemma {:induction false} SavesGrow(ops: seq<Op>, m: nat, n: nat)
    requires m <= n <= |ops|
    ensures Saves(ops, m) <= Saves(ops, n)
  {
    if m < n {
      SavesGrow(ops, m, n - 1);
    }
  }

  /** The place of a save among the saves is the number of saves before it. */
  lemma {:induction false} PlaceOfSave(ops: seq<Op>, n: nat, k: nat)
    requires k < n <= |ops| && Succeeds(ops[k])
    ensures |Saves(ops, k)| < |Saves(ops, n)| && Saves(ops, n)[|Saves(ops, k)|] == k
  {
    SavesGrow(ops, k + 1, n);
  }

  function VersionOf(op: Op): Version
    requires op.Save?
  {
    Version(op.id, VersionFile(op.second))
  }

  lemma KeptNext(ops: seq<Op>, n: nat)
    requires 0 < n <= |ops|
    ensures var before := Kept(ops, n - 1);
            && |before| <= MAX_CONFIG_VERSIONS
            && Kept(ops, n) ==
                 if !Succeeds(ops[n - 1]) then before
                 else (if |before| >= MAX_CONFIG_VERSIONS then before[1..] else before) + [n - 1]
  {
  }

  /** The versions are those of the saves, one by one. */
  predicate Lists(versions: seq<Version>, ops: seq<Op>, saves: seq<nat>) {
    && |versions| == |saves|
    && forall i :: 0 <= i < |saves| ==>
         saves[i] < |ops| && Succeeds(ops[saves[i]]) && versions[i] == VersionOf(ops[saves[i]])
  }

  lemma VersionsNext(m: Manager, op: Op)
    ensures Step(m, op).versions ==
              if !Succeeds(op) then m.versions
              else m.versions[if |m.versions| >= MAX_CONFIG_VERSIONS then 1 else 0..] + [VersionOf(op)]
  {
  }

  lemma ListsNext(versions: seq<Version>, ops: seq<Op>, saves: seq<nat>, from: nat, k: nat)
    requires Lists(versions, ops, saves) && from <= |saves| && k < |ops| && Succeeds(ops[k])
    ensures Lists(versions[from..] + [VersionOf(ops[k])], ops, saves[from..] + [k])
  {
  }

  /** The index lists exactly the kept saves, in order. */
  lemma {:induction false} IndexIsLatest(ops: seq<Op>, n: nat)
    requires n <= |ops|
    ensures Lists(After(ops, n).versions, ops, Kept(ops, n))
  {
    if n > 0 {
      IndexIsLatest(ops, n - 1);
      KeptNext(ops, n);
      VersionsNext(After(ops, n - 1), ops[n - 1]);
      IndexNext(After(ops, n - 1).versions, After(ops, n).versions, ops, Kept(ops, n - 1), Kept(ops, n), n - 1);
    }
  }

  lemma IndexNext(vs: seq<Version>, vs': seq<Version>, ops: seq<Op>, kept: seq<nat>, kept': seq<nat>, k: nat)
    requires Lists(vs, ops, kept) && k < |ops|
    requires !Succeeds(ops[k]) ==> vs' == vs && kept' == kept
    requires Succeeds(ops[k]) ==> vs' == vs[if |vs| >= MAX_CONFIG_VERSIONS then 1 else 0..] + [VersionOf(ops[k])]
    requires Succeeds(ops[k]) ==> kept' == (if |kept| >= MAX_CONFIG_VERSIONS then kept[1..] else kept) + [k]
    ensures Lists(vs', ops, kept')
  {
    if Succeeds(ops[k]) {
      var from := if |vs| >= MAX_CONFIG_VERSIONS then 1 else 0;
      assert kept' == kept[from..] + [k];
      ListsNext(vs, ops, kept, from, k);
    }
  }

  // ---------------------------------------------------------------------------
  // Which files there are
  // ---------------------------------------------------------------------------

  /** What an operation writes to a file, if anything. */
  function WritesTo(m: Manager, op: Op, p: Path): Option<Data> {
    match op
    case Save(_, second, text, write, _) => if p == VersionFile(second) then Put(write, text) else None
    case Rollback(id, target, write) =>
      var content := Content(m, id);
      if p == Other(target) && content.Some? then Put(write, content.value) else None
  }

  function Writes(ops: seq<Op>, i: nat, p: Path): Option<Data>
    requires i < |ops|
  {
    WritesTo(After(ops, i), ops[i], p)
  }

  /** Operation `j` evicts a version with this file and removes it, after its own write. */
  ghost predicate Removes(ops: seq<Op>, j: nat, p: Path)
    requires j < |ops|
  {
    Succeeds(ops[j]) && ops[j].removes &&
    exists e :: 0 <= e < j && Evicts(ops, j, e) && ops[e].Save? && p == VersionFile(ops[e].second)
  }

  /** Operation `l` was the last to write the file, and no eviction since has removed it. */
  ghost predicate Holds(ops: seq<Op>, n: nat, p: Path, l: nat)
    requires n <= |ops|
  {
    && l < n && Writes(ops, l, p).Some?
    && (forall j :: l < j < n ==> Writes(ops, j, p).None?)
    && (forall j :: l <= j < n ==> !Removes(ops, j, p))
  }

  /** An operation that evicts removes the file of the version in front. */
  predicate RemovesFrom(m: Manager, op: Op, p: Path) {
    Succeeds(op) && op.removes && |m.versions| >= MAX_CONFIG_VERSIONS && p == m.versions[0].path
  }

  lemma StepFile(m: Manager, op: Op, p: Path)
    ensures FileAt(Step(m, op), p) ==
              if RemovesFrom(m, op, p) then None
              else if WritesTo(m, op, p).Some? then WritesTo(m, op, p)
              else FileAt(m, p)
  {
  }

  lemma {:induction false} RemovesFront(ops: seq<Op>, j: nat, p: Path)
    requires j < |ops|
    ensures Removes(ops, j, p) <==> RemovesFrom(After(ops, j), ops[j], p)
  {
    var versions, kept := After(ops, j).versions, Kept(ops, j);
    IndexIsLatest(ops, j);
    if Succeeds(ops[j]) && |kept| >= MAX_CONFIG_VERSIONS {
      var e := kept[0];
      assert Evicts(ops, j, e) && versions[0] == VersionOf(ops[e]);
      EvictsEarlier(ops, j, e);
    }
  }

  /** What one operation does to a file. */
  lemma {:induction false} FileNext(ops: seq<Op>, n: nat, p: Path)
    requires 0 < n <= |ops|
    ensures FileAt(After(ops, n), p) ==
              if Removes(ops, n - 1, p) then None
              else if Writes(ops, n - 1, p).Some? then Writes(ops, n - 1, p)
              else FileAt(After(ops, n - 1), p)
  {
    RemovesFront(ops, n - 1, p);
    StepFile(After(ops, n - 1), ops[n - 1], p);
  }

  lemma HoldsNext(ops: seq<Op>, n: nat, p: Path, l: nat)
    requires 0 < n <= |ops|
    ensures Holds(ops, n, p, l) <==>
              && !Removes(ops, n - 1, p)
              && if Writes(ops, n - 1, p).Some? then l == n - 1 else Holds(ops, n - 1, p, l)
  {
  }

  /**
    After every history, on any clock and whatever fails: a file exists exactly
    when some operation wrote it and no eviction since removed it, and it then
    holds what the last such operation wrote.
   */
  lemma {:induction false} FilesAreKnown(ops: seq<Op>, n: nat, p: Path)
    requires n <= |ops|
    ensures FileAt(After(ops, n), p).Some? <==> exists l: nat :: Holds(ops, n, p, l)
    ensures forall l: nat :: Holds(ops, n, p, l) ==> FileAt(After(ops, n), p) == Writes(ops, l, p)
  {
    if n > 0 {
      FilesAreKnown(ops, n - 1, p);
      FileNext(ops, n, p);
      forall l: nat | Holds(ops, n, p, l) ensures FileAt(After(ops, n), p) == Writes(ops, l, p) {
        HoldsNext(ops, n, p, l);
      }
      if FileAt(After(ops, n), p).Some? {
        if Writes(ops, n - 1, p).Some? {
          HoldsNext(ops, n, p, n - 1);
        } else {
          var l: nat :| Holds(ops, n - 1, p, l);
          HoldsNext(ops, n, p, l);
        }
      }
    }
  }

  // ---------------------------------------------------------------------------
  // What a version gives back
  // ---------------------------------------------------------------------------

  /** No two successful saves got the same id. */
  predicate UniqueIds(ops: seq<Op>) {
    forall i, j :: 0 <= i < j < |ops| && Succeeds(ops[i]) && Succeeds(ops[j]) ==> ops[i].id != ops[j].id
  }

  lemma {:induction false} FindAt(versions: seq<Version>, k: nat)
    requires k < |versions| && forall i :: 0 <= i < k ==> versions[i].id != versions[k].id
    ensures Find(versions, versions[k].id) == Some(versions[k])
  {
    if k > 0 {
      FindAt(versions[1..], k - 1);
    }
  }

  lemma {:induction false} FindNone(versions: seq<Version>, id: string)
    requires forall i :: 0 <= i < |versions| ==> versions[i].id != id
    ensures Find(versions, id) == None
  {
    if versions != [] {
      FindNone(versions[1..], id);
    }
  }

  /** A save is found by its id exactly while it is kept. */
  lemma {:induction false} FoundIffKept(ops: seq<Op>, n: nat, k: nat)
    requires k < n <= |ops| && UniqueIds(ops) && Succeeds(ops[k])
    ensures Find(After(ops, n).versions, ops[k].id) == if k in Kept(ops, n) then Some(VersionOf(ops[k])) else None
  {
    var vs, kept := After(ops, n).versions, Kept(ops, n);
    IndexIsLatest(ops, n);
    SavesAreSaves(ops, n);
    if k in kept {
      var i :| 0 <= i < |kept| && kept[i] == k;
      assert forall j :: 0 <= j < i ==> kept[j] < k && vs[j].id == ops[kept[j]].id;
      FindAt(vs, i);
    } else {
      forall i | 0 <= i < |vs| ensures vs[i].id != ops[k].id {
        assert kept[i] != k && vs[i].id == ops[kept[i]].id;
      }
      FindNone(vs, ops[k].id);
    }
  }

  function AsText(data: Option<Data>): Option<string> {
    if data.Some? && data.value.Text? then Some(data.value.text) else None
  }

  lemma {:induction false} ContentOf(ops: seq<Op>, n: nat, k: nat)
    requires k < n <= |ops| && UniqueIds(ops) && Succeeds(ops[k])
    ensures Content(After(ops, n), ops[k].id) ==
              if k in Kept(ops, n) then AsText(FileAt(After(ops, n), VersionFile(ops[k].second))) else None
  {
    FoundIffKept(ops, n, k);
  }

  /**
    Asking for a saved version gives back the text saved under its id exactly
    when the version is kept, and of the operations that wrote its file the last
    wrote that text and no eviction has removed the file since.
   */
  lemma {:induction false} ContentExact(ops: seq<Op>, n: nat, k: nat)
    requires k < n <= |ops| && UniqueIds(ops) && Succeeds(ops[k])
    ensures var p := VersionFile(ops[k].second);
            Content(After(ops, n), ops[k].id) == Some(ops[k].text) <==>
              k in Kept(ops, n) && exists l: nat :: Holds(ops, n, p, l) && Writes(ops, l, p) == Some(Text(ops[k].text))
  {
    ContentOf(ops, n, k);
    FilesAreKnown(ops, n, VersionFile(ops[k].second));
  }

  // ---------------------------------------------------------------------------
  // Saves in distinct seconds
  // ---------------------------------------------------------------------------

  /** No two saves fall into the same second; they need not be in order. */
  predicate DistinctSeconds(ops: seq<Op>) {
    forall i, j :: 0 <= i < j < |ops| && ops[i].Save? && ops[j].Save? ==> ops[i].second != ops[j].second
  }

  /** A save is kept while no more than its predecessors have been evicted. */
  lemma {:induction false} KeptByPlace(ops: seq<Op>, n: nat, k: nat)
    requires k < n <= |ops| && Succeeds(ops[k])
    ensures k in Kept(ops, n) <==> |Saves(ops, k)| >= Evicted(ops, n)
  {
    var at := |Saves(ops, k)|;
    SavesAreSaves(ops, n);
    PlaceOfSave(ops, n, k);
    if at >= Evicted(ops, n) {
      assert Kept(ops, n)[at - Evicted(ops, n)] == k;
    }
  }

  /** A save is evicted by the hundredth save after it. */
  lemma {:induction false} EvictsByPlace(ops: seq<Op>, j: nat, k: nat)
    requires k < |ops| && j < |ops| && Succeeds(ops[k])
    ensures Evicts(ops, j, k) <==> Succeeds(ops[j]) && |Saves(ops, j)| == |Saves(ops, k)| + MAX_CONFIG_VERSIONS
  {
    SavesAreSaves(ops, j);
    if k < j {
      PlaceOfSave(ops, j, k);
    } else {
      SavesGrow(ops, j, k);
    }
  }

  /** A save is no longer kept exactly when some operation has evicted it. */
  lemma {:induction false} EvictedIffNotKept(ops: seq<Op>, n: nat, k: nat)
    requires k < n <= |ops| && Succeeds(ops[k])
    ensures k !in Kept(ops, n) <==> exists j :: 0 <= j < n && Evicts(ops, j, k)
  {
    KeptByPlace(ops, n, k);
    if k !in Kept(ops, n) {
      var j := Saves(ops, n)[|Saves(ops, k)| + MAX_CONFIG_VERSIONS];
      SavesAreSaves(ops, n);
      PlaceOfSave(ops, n, j);
      EvictsByPlace(ops, j, k);
    }
    forall j | 0 <= j < n && Evicts(ops, j, k) ensures k !in Kept(ops, n) {
      EvictsByPlace(ops, j, k);
      PlaceOfSave(ops, n, j);
    }
  }

  /** With saves in distinct seconds, only the eviction of a save can remove what it wrote. */
  lemma {:induction false} HoldsWhenDistinct(ops: seq<Op>, n: nat, k: nat)
    requires k < n <= |ops| && DistinctSeconds(ops) && ops[k].Save? && Put(ops[k].write, ops[k].text).Some?
    ensures var p := VersionFile(ops[k].second);
            (exists l: nat :: Holds(ops, n, p, l)) <==> !(exists j :: 0 <= j < n && Evicts(ops, j, k) && ops[j].removes)
    ensures forall l: nat :: Holds(ops, n, VersionFile(ops[k].second), l) ==> l == k
  {
    var p := VersionFile(ops[k].second);
    assert forall j :: 0 <= j < n && Writes(ops, j, p).Some? ==> j == k;
    forall j | 0 <= j < n ensures Removes(ops, j, p) <==> Evicts(ops, j, k) && ops[j].removes {
      EvictsEarlier(ops, j, k);
      if Removes(ops, j, p) {
        var e :| 0 <= e < j && Evicts(ops, j, e) && ops[e].Save? && p == VersionFile(ops[e].second);
        assert e == k;
      }
    }
    forall j | 0 <= j < k ensures !Evicts(ops, j, k) {
      EvictsEarlier(ops, j, k);
    }
    assert Holds(ops, n, p, k) <==> !(exists j :: 0 <= j < n && Evicts(ops, j, k) && ops[j].removes);
  }

  lemma EvictsEarlier(ops: seq<Op>, j: nat, e: nat)
    requires j < |ops|
    ensures Evicts(ops, j, e) ==> e < j && Succeeds(ops[e])
  {
    SavesAreSaves(ops, j);
  }

  /**
    With saves in distinct seconds, in whatever order, every kept version gives
    back its own text and an evicted id gives nothing, whatever rollbacks,
    failed saves and failed removals there are besides.
   */
  lemma {:induction false} DistinctSecondsKeepAll(ops: seq<Op>, n: nat, k: nat)
    requires k < n <= |ops| && DistinctSeconds(ops) && UniqueIds(ops) && Succeeds(ops[k])
    ensures Content(After(ops, n), ops[k].id) == if k in Kept(ops, n) then Some(ops[k].text) else None
  {
    FoundIffKept(ops, n, k);
    if k in Kept(ops, n) {
      EvictedIffNotKept(ops, n, k);
      HoldsWhenDistinct(ops, n, k);
      ContentExact(ops, n, k);
    }
  }

  /**
    With saves in distinct seconds, the file of a save exists exactly when the
    save wrote it and was not evicted with its file removed.
   */
  lemma {:induction false} DistinctSecondsFiles(ops: seq<Op>, n: nat, second: nat)
    requires n <= |ops| && DistinctSeconds(ops)
    ensures VersionFile(second) in After(ops, n).files <==>
              exists k :: && 0 <= k < n && ops[k].Save? && ops[k].second == second && !ops[k].write.Untouched?
                          && !(exists j :: 0 <= j < n && Evicts(ops, j, k) && ops[j].removes)
  {
    var p := VersionFile(second);
    FilesAreKnown(ops, n, p);
    forall k | 0 <= k < n && ops[k].Save? && ops[k].second == second && !ops[k].write.Untouched?
      ensures (exists l: nat :: Holds(ops, n, p, l)) <==> !(exists j :: 0 <= j < n && Evicts(ops, j, k) && ops[j].removes)
    {
      HoldsWhenDistinct(ops, n, k);
    }
    if l: nat :| Holds(ops, n, p, l) {
      assert ops[l].Save? && ops[l].second == second && !ops[l].write.Untouched?;
    }
  }

  // ---------------------------------------------------------------------------
  // Rolling back
  // ---------------------------------------------------------------------------

  /** Rolling back changes no version, whatever becomes of the write. */
  lemma {:induction false} RollbackKeepsVersions(ops: seq<Op>, n: nat, id: string)
    requires n < |ops| && ops[n].Rollback?
    ensures Content(After(ops, n + 1), id) == Content(After(ops, n), id)
  {
    var versions := After(ops, n).versions;
    IndexIsLatest(ops, n);
    assert forall i :: 0 <= i < |versions| ==> versions[i].path.VersionFile?;
    FindsOne(versions, id);
  }

  lemma {:induction false} FindsOne(versions: seq<Version>, id: string)
    ensures Find(versions, id).Some? ==> Find(versions, id).value in versions
  {
    if versions != [] {
      FindsOne(versions[1..], id);
    }
  }

  /** The handler: the current configuration is saved, at `n`, and then version `k` written over the target. */
  predicate RollsBack(ops: seq<Op>, n: nat, k: nat) {
    && k < n && n + 2 <= |ops| && Succeeds(ops[k])
    && ops[n].Save? && ops[n + 1].Rollback? && ops[n + 1].id == ops[k].id && ops[n + 1].write.Done?
  }

  lemma {:induction false} KeptUnlessEvicted(ops: seq<Op>, n: nat, k: nat)
    requires n < |ops| && k < n && Succeeds(ops[k]) && k in Kept(ops, n)
    ensures k in Kept(ops, n + 1) <==> !Evicts(ops, n, k)
  {
    KeptByPlace(ops, n, k);
    KeptByPlace(ops, n + 1, k);
    EvictsByPlace(ops, n, k);
  }

  /** Operation `n` neither removes the file nor writes anything but `text` to it. */
  ghost predicate Leaves(ops: seq<Op>, n: nat, p: Path, text: string)
    requires n < |ops|
  {
    !Removes(ops, n, p) && (Writes(ops, n, p).Some? ==> Writes(ops, n, p) == Some(Text(text)))
  }

  lemma LeavesFile(ops: seq<Op>, n: nat, p: Path, text: string)
    requires n < |ops| && FileAt(After(ops, n), p) == Some(Text(text))
    ensures AsText(FileAt(After(ops, n + 1), p)) == Some(text) <==> Leaves(ops, n, p, text)
  {
    FileNext(ops, n + 1, p);
  }

  /** What one more save leaves of a version that gave back its text. */
  lemma {:induction false} SaveSparesVersion(ops: seq<Op>, n: nat, k: nat)
    requires k < n < |ops| && Succeeds(ops[k]) && ops[n].Save? && UniqueIds(ops)
    requires Content(After(ops, n), ops[k].id) == Some(ops[k].text)
    ensures Content(After(ops, n + 1), ops[k].id) == Some(ops[k].text) <==>
              !Evicts(ops, n, k) && Leaves(ops, n, VersionFile(ops[k].second), ops[k].text)
  {
    ContentOf(ops, n, k);
    ContentOf(ops, n + 1, k);
    KeptUnlessEvicted(ops, n, k);
    LeavesFile(ops, n, VersionFile(ops[k].second), ops[k].text);
  }

  /**
    The save that precedes a rollback can undo it. A version that gave back its
    text before does so after that save, and the target then holds it, exactly
    when the save neither evicts the version nor an older one of its second, and
    does not write anything else to its file. When it gives back nothing, the
    rollback changes nothing.
   */
  lemma {:induction false} RollbackConfigExact(ops: seq<Op>, n: nat, k: nat)
    requires RollsBack(ops, n, k) && UniqueIds(ops)
    requires Content(After(ops, n), ops[k].id) == Some(ops[k].text)
    ensures var content := Content(After(ops, n + 1), ops[k].id);
            && (content == Some(ops[k].text) <==>
                  !Evicts(ops, n, k) && Leaves(ops, n, VersionFile(ops[k].second), ops[k].text))
            && (content.Some? ==> FileAt(After(ops, n + 2), Other(ops[n + 1].target)) == Some(Text(content.value)))
            && (content.None? ==> After(ops, n + 2) == After(ops, n + 1))
  {
    SaveSparesVersion(ops, n, k);
    assert After(ops, n + 2) == Step(After(ops, n + 1), ops[n + 1]);
  }

  /** With saves in distinct seconds, that is exactly when the version is not the oldest of a hundred. */
  lemma {:induction false} RollsBackUnlessOldest(ops: seq<Op>, n: nat, k: nat)
    requires RollsBack(ops, n, k) && UniqueIds(ops) && DistinctSeconds(ops) && k in Kept(ops, n)
    ensures var target := Other(ops[n + 1].target);
            if Evicts(ops, n, k) then After(ops, n + 2) == After(ops, n + 1)
            else FileAt(After(ops, n + 2), target) == Some(Text(ops[k].text))
  {
    DistinctSecondsKeepAll(ops, n, k);
    DistinctSecondsKeepAll(ops, n + 1, k);
    KeptUnlessEvicted(ops, n, k);
    RollbackConfigExact(ops, n, k);
  }

  // ---------------------------------------------------------------------------
  // Histories in which a version is lost
  // ---------------------------------------------------------------------------

  /** Saves that succeed, the one at `i` in second `at(i)`, each under an id of its own. */
  function SavesAt(n: nat, at: nat -> nat): (ops: seq<Op>)
    ensures |ops| == n && UniqueIds(ops)
    ensures forall i :: 0 <= i < n ==> Succeeds(ops[i]) && ops[i].second == at(i) && ops[i].text == "t" && ops[i].removes
  {
    var ops := seq(n, (i: nat) => Save(seq(i, _ => 'x'), at(i), "t", Done, true));
    assert forall i :: 0 <= i < n ==> |ops[i].id| == i;
    ops
  }

  /** When every operation is a save that succeeds, the saves are all of them. */
  lemma {:induction false} AllSave(ops: seq<Op>, n: nat)
    requires n <= |ops| && forall i :: 0 <= i < n ==> Succeeds(ops[i])
    ensures |Saves(ops, n)| == n && forall i :: 0 <= i < n ==> Saves(ops, n)[i] == i
  {
    if n > 0 {
      AllSave(ops, n - 1);
    }
  }

  lemma {:induction false} FirstEvicted(ops: seq<Op>)
    requires |ops| > 100 && forall i :: 0 <= i < |ops| ==> Succeeds(ops[i])
    ensures Evicts(ops, 100, 0)
  {
    AllSave(ops, 100);
  }

  /** Two saves in one second with different texts: the earlier version then gives back the later text. */
  lemma SameSecondLosesText()
    ensures var ops := [Save("a", 7, "x", Done, true), Save("b", 7, "y", Done, true)];
            Content(After(ops, 2), "a") == Some("y")
  {
  }

  /** A save that fails after emptying the file takes the text of the version before it in the same second. */
  lemma FailedSaveLosesText()
    ensures var ops := [Save("a", 7, "x", Done, true), Save("b", 7, "y", Partial(Text("")), true)];
            Content(After(ops, 2), "a") == Some("")
  {
  }

  /** A version has no file once an eviction behind its own write removed the file of its second. */
  lemma {:induction false} FileRemoved(ops: seq<Op>, n: nat, k: nat, j: nat)
    requires k <= j < n <= |ops| && UniqueIds(ops) && Succeeds(ops[k])
    requires Removes(ops, j, VersionFile(ops[k].second))
    requires forall i :: k < i < n && ops[i].Save? && ops[i].second == ops[k].second ==> i <= j
    ensures Content(After(ops, n), ops[k].id) == None
  {
    var p := VersionFile(ops[k].second);
    FoundIffKept(ops, n, k);
    FilesAreKnown(ops, n, p);
    assert Writes(ops, k, p).Some?;
    assert forall i :: j < i < n ==> Writes(ops, i, p).None?;
    assert forall l: nat :: !Holds(ops, n, p, l);
  }

  /** The hundred and first save in one second evicts the first, and with it the file of all the others. */
  lemma {:induction false} EvictionRemovesSharedFile(k: nat)
    requires 1 <= k <= 100
    ensures var ops := SavesAt(101, _ => 7);
            k in Kept(ops, 101) && Content(After(ops, 101), ops[k].id) == None
  {
    var ops := SavesAt(101, _ => 7);
    AllSave(ops, 101);
    assert Kept(ops, 101)[k - 1] == k;
    FirstEvicted(ops);
    assert Removes(ops, 100, VersionFile(ops[k].second));
    FileRemoved(ops, 101, k, 100);
  }

  /** The clock set back once: saves 0 and 50 fall into second 5, all others into seconds of their own. */
  function SetBack(i: nat): nat { if i == 0 || i == 50 then 5 else 6 + i }

  /** Of 102 such saves the last evicts one of another second, yet save 50 has lost its file to the eviction before. */
  lemma {:induction false} ClockSetBackLosesFile()
    ensures var ops := SavesAt(102, SetBack);
            && 50 in Kept(ops, 102) && !Removes(ops, 101, VersionFile(5))
            && Content(After(ops, 102), ops[50].id) == None
  {
    var ops := SavesAt(102, SetBack);
    AllSave(ops, 102);
    assert Kept(ops, 102)[48] == 50;
    FirstEvicted(ops);
    assert ops[0].second == 5 && ops[50].second == 5;
    assert Removes(ops, 100, VersionFile(5));
    FileRemoved(ops, 102, 50, 100);
    AllSave(ops, 101);
    assert Kept(ops, 101)[0] == 1 && ops[1].second == 7;
  }

  /** A hundred saves in different seconds, and a rollback to the first: saving the current configuration evicts it. */
  lemma {:induction false} RollbackToOldestFails()
    ensures var saves := SavesAt(101, (i: nat) => i);
            var ops := saves + [Rollback(saves[0].id, "main.toml", Done)];
            && Content(After(ops, 100), saves[0].id) == Some("t")
            && After(ops, 102) == After(ops, 101)
  {
    var saves := SavesAt(101, (i: nat) => i);
    var ops := saves + [Rollback(saves[0].id, "main.toml", Done)];
    AllSave(ops, 100);
    assert Kept(ops, 100)[0] == 0;
    DistinctSecondsKeepAll(ops, 100, 0);
    assert Evicts(ops, 100, 0);
    RollsBackUnlessOldest(ops, 100, 0);
  }

  // ---------------------------------------------------------------------------
  // The manager's own form
  // ---------------------------------------------------------------------------

  class ConfigVersionManager {
    var versions: seq<Version>
    var files: map<Path, Data>

    ghost function View(): Manager reads this { Manager(versions, files) }

    constructor ()
      ensures View() == Empty
    {
      versions, files := [], map[];
    }

    /** `id` is the new identifier, `second` the time of day; `write` and `removes` say what becomes of the file operations. */
    method SaveVersion(id: string, second: nat, text: string, write: Write, removes: bool) returns (saved: Option<Version>)
      modifies this
      ensures View() == Step(old(View()), Save(id, second, text, write, removes))
      ensures saved == if write.Done? then Some(Version(id, VersionFile(second))) else None
    {
      var path := VersionFile(second);
      WriteFile(path, text, write);
      if !write.Done? {
        return None;
      }
      var version := Version(id, path);
      if |versions| >= MAX_CONFIG_VERSIONS {
        var oldest := versions[0];
        versions := versions[1..];
        if removes {
          files := files - {oldest.path};
        }
      }
      versions := versions + [version];
      saved := Some(version);
    }

    /** Writing a whole file: on failure it is as it was, or holds whatever was left. */
    method WriteFile(path: Path, text: string, write: Write)
      modifies this`files
      ensures files == Written(old(files), path, write, text)
    {
      match write {
        case Done => files := files[path := Text(text)];
        case Untouched =>
        case Partial(left) => files := files[path := left];
      }
    }

    method GetVersionContent(id: string) returns (content: Option<string>)
      ensures content == Content(View(), id)
    {
      var i := 0;
      while i < |versions|
        invariant 0 <= i <= |versions|
        invariant Find(versions, id) == Find(versions[i..], id)
      {
        if versions[i].id == id {
          var path := versions[i].path;
          return if path in files && files[path].Text? then Some(files[path].text) else None;
        }
        assert versions[i..][1..] == versions[i + 1..];
        i := i + 1;
      }
      return None;
    }

    /** Writes a saved version over `target`. */
    method RollBack(id: string, target: string, write: Write) returns (ok: bool)
      modifies this`files
      ensures View() == Step(old(View()), Rollback(id, target, write))
      ensures ok <==> Content(old(View()), id).Some? && write.Done?
    {
      var content := GetVersionContent(id);
      if content.None? {
        return false;
      }
      WriteFile(Other(target), content.value, write);
      return write.Done?;
    }

    /** The handler: saves the current configuration, whether or not that works, and rolls back. */
    method RollBackConfig(id: string, current: Op, target: string, write: Write) returns (ok: bool)
      requires current.Save?
      modifies this
      ensures View() == Step(Step(old(View()), current), Rollback(id, target, write))
      ensures ok <==> Content(Step(old(View()), current), id).Some? && write.Done?
    {
      var _ := SaveVersion(current.id, current.second, current.text, current.write, current.removes);
      ok := RollBack(id, target, write);
    }
  }
}
