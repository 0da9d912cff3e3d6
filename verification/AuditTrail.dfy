/**
  The audit log (`AuditState` in src/admin/audit.rs): the latest ten thousand
  entries in memory, and every entry appended to a file, one line each, from
  which a restarted process reads them back.
 */
module AuditTrail {
  import opened Basics

  const MAX_AUDIT_LOGS: nat := 10000

  /** An entry; what it says does not matter here. */
  datatype AuditLog = AuditLog(id: string, username: string, action: string, resource: string, success: bool)

  /** A line of the file: an entry in JSON, text that is not one, or bytes that are not UTF-8. */
  datatype Line = Json(entry: AuditLog) | Unparsable | Undecodable

  /** The finished lines, and what stands behind the last newline if anything but blanks does. */
  datatype File = File(lines: seq<Line>, tail: Option<Line>)

  /** The lines a reader is given: an unfinished last line counts as one. */
  function Lines(file: File): seq<Line> {
    file.lines + if file.tail.Some? then [file.tail.value] else []
  }

  /** The last `n` elements, or all of them. */
  function LastOf<T>(s: seq<T>, n: nat): seq<T> {
    if |s| <= n then s else s[|s| - n..]
  }

  /** A full deque loses its front before it takes another entry. */
  function Push(logs: seq<AuditLog>, e: AuditLog): seq<AuditLog> {
    (if |logs| >= MAX_AUDIT_LOGS then logs[1..] else logs) + [e]
  }

  function PushAll(logs: seq<AuditLog>, entries: seq<AuditLog>): seq<AuditLog>
    decreases entries
  {
    if entries == [] then logs else PushAll(Push(logs, entries[0]), entries[1..])
  }

  /** The entries among the lines up to the first that is not UTF-8, where reading stops. */
  function Entries(lines: seq<Line>): seq<AuditLog> {
    if lines == [] then []
    else match lines[0]
      case Json(e) => [e] + Entries(lines[1..])
      case Unparsable => Entries(lines[1..])
      case Undecodable => []
  }

  function Readable(file: File): seq<AuditLog> { Entries(Lines(file)) }

  /** Memory holds exactly the latest entries that can be read from the file. */
  predicate Mirrors(logs: seq<AuditLog>, file: File) {
    logs == LastOf(Readable(file), MAX_AUDIT_LOGS)
  }

  lemma PushIsLast(all: seq<AuditLog>, e: AuditLog)
    ensures Push(LastOf(all, MAX_AUDIT_LOGS), e) == LastOf(all + [e], MAX_AUDIT_LOGS)
  {
  }

  lemma {:induction false} PushAllIsLast(all: seq<AuditLog>, entries: seq<AuditLog>)
    ensures PushAll(LastOf(all, MAX_AUDIT_LOGS), entries) == LastOf(all + entries, MAX_AUDIT_LOGS)
    decreases entries
  {
    if entries == [] {
      assert all + [] == all;
    } else {
      PushIsLast(all, entries[0]);
      PushAllIsLast(all + [entries[0]], entries[1..]);
      assert all + [entries[0]] + entries[1..] == all + entries;
    }
  }

  // ---------------------------------------------------------------------------
  // Appending to the file
  // ---------------------------------------------------------------------------

  /** Where a write that fails part of the way leaves off. */
  datatype Cut = InsideText | InsideCharacter | BeforeNewline

  /** What becomes of the line appended for an entry. */
  datatype Outcome = Done | Nothing | Torn(cut: Cut)

  function Fragment(e: AuditLog, cut: Cut): Line {
    match cut
    case InsideText => Unparsable
    case InsideCharacter => Undecodable
    case BeforeNewline => Json(e)
  }

  /** What `more` reads as once it stands behind an unfinished line: never as an entry. */
  function Glued(tail: Option<Line>, more: Line): Line {
    match tail
    case None => more
    case Some(t) => if t.Undecodable? || more.Undecodable? then Undecodable else Unparsable
  }

  function Append(file: File, e: AuditLog, outcome: Outcome): File {
    match outcome
    case Done => File(file.lines + [Glued(file.tail, Json(e))], None)
    case Nothing => file
    case Torn(cut) => File(file.lines, Some(Glued(file.tail, Fragment(e, cut))))
  }

  /** The file ends with its last line finished, and all of it can be read. */
  predicate Intact(file: File) {
    file.tail.None? && Undecodable !in file.lines
  }

  /** The entry reached the file whole. */
  predicate Landed(outcome: Outcome) {
    outcome.Done? || outcome == Torn(BeforeNewline)
  }

  lemma {:induction false} EntriesBehind(lines: seq<Line>, last: Line)
    ensures Entries(lines + [last]) == Entries(lines)
            + if last.Json? && Undecodable !in lines then [last.entry] else []
  {
    if lines != [] {
      assert (lines + [last])[1..] == lines[1..] + [last];
      assert Undecodable in lines <==> lines[0].Undecodable? || Undecodable in lines[1..];
      EntriesBehind(lines[1..], last);
    }
  }

  /** An entry that reaches an intact file whole can be read back behind the others. */
  lemma AppendLands(file: File, e: AuditLog, outcome: Outcome)
    requires Intact(file) && Landed(outcome)
    ensures Readable(Append(file, e, outcome)) == Readable(file) + [e]
    ensures Intact(Append(file, e, outcome)) <==> outcome.Done?
  {
    assert Lines(file) == file.lines;
    assert Lines(Append(file, e, outcome)) == file.lines + [Json(e)];
    EntriesBehind(file.lines, Json(e));
  }

  /** Otherwise an attempt to append adds nothing to what can be read. */
  lemma AppendHides(file: File, e: AuditLog, outcome: Outcome)
    requires !(Intact(file) && Landed(outcome))
    ensures forall x :: x in Readable(Append(file, e, outcome)) ==> x in Readable(file)
  {
    var fileAfter := Append(file, e, outcome);
    if file.tail.Some? {
      EntriesBehind(file.lines, file.tail.value);
    } else {
      assert Lines(file) == file.lines;
    }
    if outcome.Done? {
      assert Lines(fileAfter) == fileAfter.lines;
      EntriesBehind(file.lines, Glued(file.tail, Json(e)));
    } else if outcome.Torn? {
      EntriesBehind(file.lines, fileAfter.tail.value);
    }
  }

  lemma AppendReadable(file: File, e: AuditLog, outcome: Outcome)
    ensures forall x :: x in Readable(Append(file, e, outcome)) ==>
              x in Readable(file) || (x == e && Intact(file) && Landed(outcome))
  {
    if Intact(file) && Landed(outcome) {
      AppendLands(file, e, outcome);
    } else {
      AppendHides(file, e, outcome);
    }
  }

  class AuditState {
    var logs: seq<AuditLog>
    var file: File

    constructor (file: File)
      ensures logs == [] && this.file == file
    {
      logs := [];
      this.file := file;
    }

    /** Reads the file, line by line, behind what is in memory already. */
    method LoadRecentEntries()
      modifies this`logs
      ensures logs == PushAll(old(logs), Readable(file))
      ensures old(logs) == [] ==> Mirrors(logs, file)
    {
      var lines := Lines(file);
      var i := 0;
      while i < |lines| && !lines[i].Undecodable?
        invariant 0 <= i <= |lines|
        invariant PushAll(logs, Entries(lines[i..])) == PushAll(old(logs), Readable(file))
      {
        assert lines[i..][1..] == lines[i + 1..];
        if lines[i].Json? {
          if |logs| >= MAX_AUDIT_LOGS {
            logs := logs[1..];
          }
          logs := logs + [lines[i].entry];
        }
        i := i + 1;
      }
      PushAllIsLast([], Readable(file));
      assert [] + Readable(file) == Readable(file);
    }

    /** Records an entry; `outcome` says what becomes of appending it to the file. */
    method Log(e: AuditLog, outcome: Outcome)
      modifies this
      ensures logs == Push(old(logs), e) && file == Append(old(file), e, outcome)
      ensures old(Mirrors(logs, file)) && old(Intact(file)) && Landed(outcome) ==> Mirrors(logs, file)
    {
      PushIsLast(Readable(file), e);
      if Intact(file) && Landed(outcome) {
        AppendLands(file, e, outcome);
      }
      if |logs| >= MAX_AUDIT_LOGS {
        logs := logs[1..];
      }
      logs := logs + [e];
      file := Append(file, e, outcome);
    }
  }

  // ---------------------------------------------------------------------------
  // A life and its successor
  // ---------------------------------------------------------------------------

  datatype Attempt = Attempt(entry: AuditLog, outcome: Outcome)

  function FileAfter(file: File, attempts: seq<Attempt>): File
    decreases attempts
  {
    if attempts == [] then file
    else FileAfter(Append(file, attempts[0].entry, attempts[0].outcome), attempts[1..])
  }

  function Logged(attempts: seq<Attempt>): (entries: seq<AuditLog>)
    ensures |entries| == |attempts|
    ensures forall i :: 0 <= i < |attempts| ==> entries[i] == attempts[i].entry
  {
    seq(|attempts|, i requires 0 <= i < |attempts| => attempts[i].entry)
  }

  /** What a process holds that read the file and then logged the entries. */
  function Memory(file: File, attempts: seq<Attempt>): seq<AuditLog> {
    PushAll(LastOf(Readable(file), MAX_AUDIT_LOGS), Logged(attempts))
  }

  lemma NoRepeatsTail<T>(s: seq<T>)
    requires s != [] && NoRepeats(s)
    ensures NoRepeats(s[1..]) && s[0] !in s[1..]
  {
    assert forall i :: 0 <= i < |s| - 1 ==> s[1..][i] == s[i + 1];
  }

  lemma LoggedTail(attempts: seq<Attempt>)
    requires attempts != []
    ensures Logged(attempts)[1..] == Logged(attempts[1..])
    ensures Logged(attempts) == [attempts[0].entry] + Logged(attempts[1..])
  {
  }

  /** Every write but the last was done, and the last put the entry in the file. */
  predicate Reached(attempts: seq<Attempt>) {
    forall i :: 0 <= i < |attempts| ==>
      attempts[i].outcome.Done? || (i == |attempts| - 1 && Landed(attempts[i].outcome))
  }

  lemma ReachedTail(attempts: seq<Attempt>)
    requires attempts != [] && Reached(attempts)
    ensures Reached(attempts[1..]) && Landed(attempts[0].outcome)
    ensures attempts[1..] != [] ==> attempts[0].outcome.Done?
  {
  }

  lemma {:induction false} FileAfterSplit(file: File, attempts: seq<Attempt>, n: nat)
    requires n <= |attempts|
    ensures FileAfter(file, attempts) == FileAfter(FileAfter(file, attempts[..n]), attempts[n..])
    decreases n
  {
    if n > 0 {
      assert attempts[..n][1..] == attempts[1..][..n - 1] && attempts[n..] == attempts[1..][n - 1..];
      FileAfterSplit(Append(file, attempts[0].entry, attempts[0].outcome), attempts[1..], n - 1);
    } else {
      assert attempts[..0] == [] && attempts[0..] == attempts;
    }
  }

  /** Nothing is read back that was neither in the file nor logged. */
  lemma {:induction false} ReadableOrigin(file: File, attempts: seq<Attempt>, x: AuditLog)
    requires x in Readable(FileAfter(file, attempts))
    ensures x in Readable(file) || x in Logged(attempts)
    decreases attempts
  {
    if attempts != [] {
      var a := attempts[0];
      ReadableOrigin(Append(file, a.entry, a.outcome), attempts[1..], x);
      LoggedTail(attempts);
      AppendReadable(file, a.entry, a.outcome);
    }
  }

  /** From an intact file on, entries that reach it are read back in their order. */
  lemma {:induction false} ReachedReadable(file: File, attempts: seq<Attempt>)
    requires Reached(attempts) && (attempts != [] ==> Intact(file))
    ensures Readable(FileAfter(file, attempts)) == Readable(file) + Logged(attempts)
    decreases attempts
  {
    if attempts == [] {
      assert Logged(attempts) == [];
    } else {
      ReachedFirst(file, attempts);
      ReachedReadable(Append(file, attempts[0].entry, attempts[0].outcome), attempts[1..]);
    }
  }

  lemma ReachedFirst(file: File, attempts: seq<Attempt>)
    requires attempts != [] && Reached(attempts) && Intact(file)
    ensures var next := Append(file, attempts[0].entry, attempts[0].outcome);
            && Reached(attempts[1..]) && (attempts[1..] != [] ==> Intact(next))
            && Readable(next) + Logged(attempts[1..]) == Readable(file) + Logged(attempts)
  {
    var a, rest := attempts[0].entry, Logged(attempts[1..]);
    ReachedTail(attempts);
    AppendLands(file, a, attempts[0].outcome);
    LoggedTail(attempts);
    Regrouped(Readable(file), [a], rest);
  }

  lemma Regrouped<T>(a: seq<T>, b: seq<T>, c: seq<T>)
    ensures a + b + c == a + (b + c)
  {
  }

  /** If all of the entries can be read back, they reached an intact file. */
  lemma {:induction false} ReadableReached(file: File, attempts: seq<Attempt>)
    requires NoRepeats(Logged(attempts))
    requires forall i :: 0 <= i < |attempts| ==> attempts[i].entry !in Readable(file)
    requires forall i :: 0 <= i < |attempts| ==> attempts[i].entry in Readable(FileAfter(file, attempts))
    ensures Reached(attempts) && (attempts != [] ==> Intact(file))
    decreases attempts
  {
    if attempts != [] {
      var a, rest := attempts[0], attempts[1..];
      var next := Append(file, a.entry, a.outcome);
      NoRepeatsTail(Logged(attempts));
      LoggedTail(attempts);
      AppendReadable(file, a.entry, a.outcome);
      ReadableOrigin(next, rest, a.entry);
      forall i | 0 <= i < |rest|
        ensures rest[i].entry !in Readable(next) && rest[i].entry in Readable(FileAfter(next, rest))
      {
        assert rest[i] == attempts[i + 1] && rest[i].entry == Logged(rest)[i] != a.entry;
      }
      ReadableReached(next, rest);
    }
  }

  /** The attempts whose entries are still in memory at the end begin here. */
  function Oldest(attempts: seq<Attempt>): nat {
    if |attempts| <= MAX_AUDIT_LOGS then 0 else |attempts| - MAX_AUDIT_LOGS
  }

  lemma {:induction false} MemoryIsLatest(file: File, attempts: seq<Attempt>)
    ensures Memory(file, attempts) == LastOf(Readable(file) + Logged(attempts), MAX_AUDIT_LOGS)
  {
    PushAllIsLast(Readable(file), Logged(attempts));
  }

  lemma LastOfHolds<T>(s: seq<T>, n: nat, i: nat)
    requires i < |s| && |s| <= i + n
    ensures s[i] in LastOf(s, n)
  {
    if |s| > n {
      assert LastOf(s, n)[i - (|s| - n)] == s[i];
    }
  }

  /** The entries of the latest ten thousand attempts are in memory. */
  lemma {:induction false} LatestInMemory(file: File, attempts: seq<Attempt>, i: nat)
    requires Oldest(attempts) <= i < |attempts|
    ensures attempts[i].entry in Memory(file, attempts)
  {
    MemoryIsLatest(file, attempts);
    LastOfHolds(Readable(file) + Logged(attempts), MAX_AUDIT_LOGS, |Readable(file)| + i);
  }

  lemma {:induction false} LatestReadBack(file: File, attempts: seq<Attempt>)
    requires var k := Oldest(attempts);
             Reached(attempts[k..]) && (attempts != [] ==> Intact(FileAfter(file, attempts[..k])))
    ensures Mirrors(Memory(file, attempts), FileAfter(file, attempts))
  {
    var k := Oldest(attempts);
    MemoryIsLatest(file, attempts);
    FileAfterSplit(file, attempts, k);
    ReachedReadable(FileAfter(file, attempts[..k]), attempts[k..]);
    if k == 0 {
      assert attempts[..0] == [] && attempts[0..] == attempts;
    } else {
      assert Logged(attempts)[k..] == Logged(attempts[k..]);
    }
  }

  /** An entry still in memory can be read back if the successor's memory is the same. */
  lemma {:induction false} LatestIsReadable(file: File, attempts: seq<Attempt>, i: nat)
    requires Mirrors(Memory(file, attempts), FileAfter(file, attempts))
    requires Oldest(attempts) <= i < |attempts|
    ensures attempts[i].entry in Readable(FileAfter(file, attempts))
  {
    LatestInMemory(file, attempts, i);
  }

  lemma {:induction false} LatestIsNew(file: File, attempts: seq<Attempt>, k: nat, i: nat)
    requires NoRepeats(Readable(file) + Logged(attempts)) && k <= i < |attempts|
    ensures attempts[i].entry !in Readable(FileAfter(file, attempts[..k]))
  {
    var all, n := Readable(file) + Logged(attempts), |Readable(file)|;
    var x := attempts[i].entry;
    assert all[n + i] == x;
    assert forall j :: 0 <= j < n ==> Readable(file)[j] == all[j];
    assert forall j :: 0 <= j < k ==> Logged(attempts[..k])[j] == all[n + j];
    if x in Readable(FileAfter(file, attempts[..k])) {
      ReadableOrigin(file, attempts[..k], x);
    }
  }

  lemma {:induction false} NoRepeatsBehind(s: seq<AuditLog>, attempts: seq<Attempt>, k: nat)
    requires NoRepeats(s + Logged(attempts)) && k <= |attempts|
    ensures NoRepeats(Logged(attempts[k..]))
  {
    var all := s + Logged(attempts);
    assert forall i :: 0 <= i < |attempts| - k ==> Logged(attempts[k..])[i] == all[|s| + k + i];
  }

  lemma {:induction false} ReadBackReached(file: File, attempts: seq<Attempt>)
    requires NoRepeats(Readable(file) + Logged(attempts))
    requires Mirrors(Memory(file, attempts), FileAfter(file, attempts))
    ensures var k := Oldest(attempts);
            Reached(attempts[k..]) && (attempts != [] ==> Intact(FileAfter(file, attempts[..k])))
  {
    var k := Oldest(attempts);
    var middle, latest := FileAfter(file, attempts[..k]), attempts[k..];
    FileAfterSplit(file, attempts, k);
    forall i | 0 <= i < |latest|
      ensures latest[i].entry in Readable(FileAfter(middle, latest))
      ensures latest[i].entry !in Readable(middle)
    {
      LatestIsReadable(file, attempts, k + i);
      LatestIsNew(file, attempts, k, k + i);
    }
    NoRepeatsBehind(Readable(file), attempts, k);
    ReadableReached(middle, latest);
  }

  /**
    A process that read an existing file and then logged any number of distinct
    entries holds the latest ten thousand of the old and new ones. Its successor
    reads back the same exactly when nothing was logged, or the file was intact
    before the latest ten thousand of the writes and each of those put its entry
    in the file.
   */
  lemma {:induction false} SuccessorReadsBack(file: File, attempts: seq<Attempt>)
    requires NoRepeats(Readable(file) + Logged(attempts))
    ensures Memory(file, attempts) == LastOf(Readable(file) + Logged(attempts), MAX_AUDIT_LOGS)
    ensures var k := Oldest(attempts);
            Mirrors(Memory(file, attempts), FileAfter(file, attempts)) <==>
              attempts == [] || (Intact(FileAfter(file, attempts[..k])) && Reached(attempts[k..]))
  {
    var k := Oldest(attempts);
    MemoryIsLatest(file, attempts);
    if attempts == [] || (Intact(FileAfter(file, attempts[..k])) && Reached(attempts[k..])) {
      LatestReadBack(file, attempts);
    }
    if Mirrors(Memory(file, attempts), FileAfter(file, attempts)) {
      ReadBackReached(file, attempts);
    }
  }

  /** Writes that are done finish the last line, and leave what is undecodable in place. */
  lemma {:induction false} IntactAfterDone(file: File, attempts: seq<Attempt>)
    requires attempts != [] && forall i :: 0 <= i < |attempts| ==> attempts[i].outcome.Done?
    ensures Intact(FileAfter(file, attempts)) <==> Undecodable !in Lines(file)
    decreases attempts
  {
    var next := Append(file, attempts[0].entry, Done);
    assert Undecodable in Lines(next) <==> Undecodable in Lines(file);
    if attempts[1..] != [] {
      IntactAfterDone(next, attempts[1..]);
    }
  }

  /**
    With every write done, the successor reads back what the process held
    exactly when nothing was logged, or no line of the old file fails to be
    UTF-8 and its last line was finished or is long behind the latest entries.
   */
  lemma {:induction false} RestartLosesNothing(file: File, attempts: seq<Attempt>)
    requires NoRepeats(Readable(file) + Logged(attempts))
    requires forall i :: 0 <= i < |attempts| ==> attempts[i].outcome.Done?
    ensures Mirrors(Memory(file, attempts), FileAfter(file, attempts)) <==>
              || attempts == []
              || (Undecodable !in Lines(file) && (file.tail.None? || |attempts| > MAX_AUDIT_LOGS))
  {
    var k := Oldest(attempts);
    SuccessorReadsBack(file, attempts);
    if k > 0 {
      IntactAfterDone(file, attempts[..k]);
    } else {
      assert FileAfter(file, attempts[..0]) == file;
    }
  }

  /** A file that holds one line of bytes that are not UTF-8 hides what is logged behind it. */
  lemma UndecodableLineHidesEntry(e: AuditLog)
    ensures var file := File([Undecodable], None);
            var attempts := [Attempt(e, Done)];
            && Memory(file, attempts) == [e]
            && Readable(FileAfter(file, attempts)) == []
  {
    var file := File([Undecodable], None);
    assert FileAfter(file, [Attempt(e, Done)]) == Append(file, e, Done);
    MemoryIsLatest(file, [Attempt(e, Done)]);
  }

  /** A write that fails halfway takes the next entry with it, although that one is written in full. */
  lemma TornLineTakesNext(a: AuditLog, b: AuditLog)
    ensures var attempts := [Attempt(a, Torn(InsideText)), Attempt(b, Done)];
            && Memory(File([], None), attempts) == [a, b]
            && Readable(FileAfter(File([], None), attempts)) == []
  {
    var attempts := [Attempt(a, Torn(InsideText)), Attempt(b, Done)];
    var file := File([], None);
    var torn := Append(file, a, Torn(InsideText));
    assert attempts[1..] == [Attempt(b, Done)];
    assert FileAfter(torn, attempts[1..]) == Append(torn, b, Done);
    assert Append(torn, b, Done).lines == [Unparsable];
    MemoryIsLatest(file, attempts);
  }
}
