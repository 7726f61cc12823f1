/** The rolling log appender: a few numbered files that together hold the end of everything written
    (lib/plog/Appenders/RollingFileAppender.h:34-108). */
module RollingLog {
  import opened Wrappers
  import opened Numerals

  // ----- The log as a list of files, newest first, each a list of records -----------------------

  /** How an appender is set up; `header` is what the formatter starts a file with. */
  datatype Setup = Setup(base: string, ext: string, header: string, maxSize: nat, maxFiles: int)

  /** The size limit: the argument converted to a signed 64-bit integer, and at least 1000. */
  function Limit(setup: Setup): (limit: int)
    ensures limit >= 1000
  {
    var low := setup.maxSize % 0x1_0000_0000_0000_0000;
    var signed := if low < 0x8000_0000_0000_0000 then low else low - 0x1_0000_0000_0000_0000;
    if signed < 1000 then 1000 else signed
  }

  datatype Log = Log(files: seq<seq<string>>, open: bool)
  datatype Event = Write(record: string) | Roll | Restart

  function Concat(records: seq<string>): string {
    if records == [] then [] else records[0] + Concat(records[1..])
  }

  /** How many bytes a file takes. */
  function Size(setup: Setup, file: seq<string>): nat {
    |setup.header| + |Concat(file)|
  }

  function Capacity(setup: Setup): (n: nat)
    ensures n >= 1
  {
    if setup.maxFiles < 1 then 1 else setup.maxFiles
  }

  function Opened(log: Log): (r: Log)
    ensures r.open && r.files != []
  {
    Log(if log.files == [] then [[]] else log.files, true)
  }

  /** A full set of files loses its oldest. */
  function Kept(setup: Setup, files: seq<seq<string>>): (kept: seq<seq<string>>)
    ensures |kept| < Capacity(setup)
  {
    if |files| >= Capacity(setup) then files[..Capacity(setup) - 1] else files
  }

  function Rolled(setup: Setup, log: Log): Log {
    Log([[]] + Kept(setup, log.files), true)
  }

  predicate MustRoll(setup: Setup, log: Log) {
    log.open && setup.maxFiles > 0 && log.files != [] && Size(setup, log.files[0]) > Limit(setup)
  }

  function Appended(log: Log, record: string): Log
    requires log.files != []
  {
    log.(files := [log.files[0] + [record]] + log.files[1..])
  }

  /** The log just before a record is written. */
  function Ready(setup: Setup, log: Log): (r: Log)
    ensures r.open && r.files != []
  {
    if MustRoll(setup, log) then Rolled(setup, log) else Opened(log)
  }

  function Next(setup: Setup, log: Log, event: Event): Log {
    match event
    case Write(record) => Appended(Ready(setup, log), record)
    case Roll => Rolled(setup, log)
    case Restart => log.(open := false)
  }

  const EMPTY := Log([], false)

  function Run(setup: Setup, events: seq<Event>): Log {
    if events == [] then EMPTY
    else Next(setup, Run(setup, events[..|events| - 1]), events[|events| - 1])
  }

  // ----- What is kept --------------------------------------------------------------------------

  /** All records of the files, from the oldest file to the newest. */
  function Flat(files: seq<seq<string>>): seq<string> {
    if files == [] then [] else Flat(files[1..]) + files[0]
  }

  function Written(event: Event): seq<string> {
    if event.Write? then [event.record] else []
  }

  /** All records written. */
  function History(events: seq<Event>): seq<string> {
    if events == [] then []
    else History(events[..|events| - 1]) + Written(events[|events| - 1])
  }

  /** The event rolls the files while all of them are in use, and so discards the oldest. */
  predicate Discards(setup: Setup, log: Log, event: Event) {
    |log.files| >= Capacity(setup) && (event.Roll? || (event.Write? && MustRoll(setup, log)))
  }

  function Discarded(setup: Setup, log: Log, event: Event): seq<string> {
    if Discards(setup, log, event) then Flat(log.files[Capacity(setup) - 1..]) else []
  }

  /** The records of the files that were discarded. */
  function Lost(setup: Setup, events: seq<Event>): seq<string> {
    if events == [] then []
    else
      var before := events[..|events| - 1];
      Lost(setup, before) + Discarded(setup, Run(setup, before), events[|events| - 1])
  }

  lemma {:induction false} FlatConcat(a: seq<seq<string>>, b: seq<seq<string>>)
    ensures Flat(a + b) == Flat(b) + Flat(a)
    decreases a
  {
    if a == [] {
      assert a + b == b;
    } else {
      assert (a + b)[1..] == a[1..] + b;
      FlatConcat(a[1..], b);
    }
  }

  lemma FlatRolled(setup: Setup, log: Log)
    ensures var n := Capacity(setup);
            Flat(log.files)
                == (if |log.files| >= n then Flat(log.files[n - 1..]) else []) + Flat(Rolled(setup, log).files)
  {
    var n := Capacity(setup);
    var kept := Kept(setup, log.files);
    assert ([[]] + kept)[1..] == kept;
    if |log.files| >= n {
      assert log.files == log.files[..n - 1] + log.files[n - 1..];
      FlatConcat(log.files[..n - 1], log.files[n - 1..]);
    }
  }

  lemma FlatAppended(log: Log, record: string)
    requires log.files != []
    ensures Flat(Appended(log, record).files) == Flat(log.files) + [record]
  {
    assert Appended(log, record).files[1..] == log.files[1..];
  }

  lemma ReadyKeeps(setup: Setup, log: Log)
    ensures Flat(log.files) == Discarded(setup, log, Write([])) + Flat(Ready(setup, log).files)
  {
    if MustRoll(setup, log) {
      FlatRolled(setup, log);
    }
  }

  lemma StepKeeps(setup: Setup, log: Log, event: Event)
    ensures Flat(log.files) + Written(event) == Discarded(setup, log, event) + Flat(Next(setup, log, event).files)
  {
    match event
    case Write(record) =>
      var discarded, ready := Discarded(setup, log, event), Ready(setup, log);
      ReadyKeeps(setup, log);
      FlatAppended(ready, record);
      assert (discarded + Flat(ready.files)) + [record] == discarded + (Flat(ready.files) + [record]);
    case Roll => FlatRolled(setup, log);
    case Restart =>
  }

  /** Nothing is lost or reordered but the discarded files: they and the files present make up the history. */
  lemma {:induction false} HistoryKept(setup: Setup, events: seq<Event>)
    ensures History(events) == Lost(setup, events) + Flat(Run(setup, events).files)
    decreases events
  {
    if events != [] {
      var before, last := events[..|events| - 1], events[|events| - 1];
      HistoryKept(setup, before);
      StepKeeps(setup, Run(setup, before), last);
      Regroup(Lost(setup, before), Flat(Run(setup, before).files), Written(last),
        Discarded(setup, Run(setup, before), last), Flat(Run(setup, events).files));
    }
  }

  lemma Regroup(a: seq<string>, b: seq<string>, c: seq<string>, d: seq<string>, e: seq<string>)
    requires b + c == d + e
    ensures (a + b) + c == (a + d) + e
  {
    assert (a + b) + c == a + (b + c);
  }

  /** Until a roll first discards a file, nothing is lost. */
  lemma {:induction false} NothingLostBefore(setup: Setup, events: seq<Event>)
    requires forall i :: 0 <= i < |events| ==> !Discards(setup, Run(setup, events[..i]), events[i])
    ensures Lost(setup, events) == []
    decreases events
  {
    if events != [] {
      var before := events[..|events| - 1];
      assert forall i :: 0 <= i < |before| ==> before[..i] == events[..i];
      NothingLostBefore(setup, before);
    }
  }

  /** How many files there are, and that an open log has one. */
  lemma {:induction false} FilesInRange(setup: Setup, events: seq<Event>)
    ensures var log := Run(setup, events); |log.files| <= Capacity(setup) && (log.open ==> log.files != [])
    decreases events
  {
    if events != [] { FilesInRange(setup, events[..|events| - 1]); }
  }

  predicate NoRolls(events: seq<Event>) {
    forall event <- events :: !event.Roll?
  }

  predicate OlderFull(setup: Setup, files: seq<seq<string>>) {
    forall i :: 1 <= i < |files| ==> Size(setup, files[i]) > Limit(setup)
  }

  lemma StepOlderFull(setup: Setup, log: Log, event: Event)
    requires OlderFull(setup, log.files) && !event.Roll?
    ensures OlderFull(setup, Next(setup, log, event).files)
  {
  }

  /** Unless asked to roll by its user, an appender rolls a file only once it exceeds the limit. */
  lemma {:induction false} OlderFilesFull(setup: Setup, events: seq<Event>)
    requires NoRolls(events)
    ensures OlderFull(setup, Run(setup, events).files)
    decreases events
  {
    if events != [] {
      OlderFilesFull(setup, events[..|events| - 1]);
      assert events[|events| - 1] in events;
      StepOlderFull(setup, Run(setup, events[..|events| - 1]), events[|events| - 1]);
    }
  }

  lemma StepStaysFull(setup: Setup, log: Log, event: Event)
    requires |log.files| <= Capacity(setup)
    requires |log.files| == Capacity(setup) || Discards(setup, log, event)
    ensures |Next(setup, log, event).files| == Capacity(setup)
  {
  }

  /** A loss leaves as many files as there may be, and without explicit rolls every one but the newest is
      over the limit. */
  lemma {:induction false} LossLeavesFullSet(setup: Setup, events: seq<Event>)
    requires Lost(setup, events) != []
    ensures var files := Run(setup, events).files;
            |files| == Capacity(setup) && (NoRolls(events) ==> OlderFull(setup, files))
    decreases events
  {
    var before, last := events[..|events| - 1], events[|events| - 1];
    if Lost(setup, before) != [] { LossLeavesFullSet(setup, before); }
    FilesInRange(setup, before);
    StepStaysFull(setup, Run(setup, before), last);
    if NoRolls(events) { OlderFilesFull(setup, events); }
  }

  // ----- The configured size ------------------------------------------------------------------

  /** The size above which a file is rolled, for a configured size that is any 64-bit size: that size, but at least
      1000,
      and 1000 for those that are negative as a signed number. */
  function Threshold(configured: nat): nat {
    if 1000 < configured < 0x8000_0000_0000_0000 then configured else 1000
  }

  predicate SizeOf64Bits(setup: Setup) {
    setup.maxSize < 0x1_0000_0000_0000_0000
  }

  /** The bytes of a file: its header and its records. */
  function Bytes(setup: Setup, file: seq<string>): nat {
    |setup.header + Concat(file)|
  }

  lemma LimitIsThreshold(setup: Setup)
    requires SizeOf64Bits(setup)
    ensures Limit(setup) == Threshold(setup.maxSize)
  {
  }

  /** A record goes to the newest file of an open log, and the others stay, as long as that file does not exceed the
      configured size. */
  lemma SmallFileGrows(setup: Setup, log: Log, record: string)
    requires SizeOf64Bits(setup) && log.open && log.files != []
    requires Bytes(setup, log.files[0]) <= Threshold(setup.maxSize) || setup.maxFiles <= 0
    ensures Next(setup, log, Write(record)) == Log([log.files[0] + [record]] + log.files[1..], true)
  {
    LimitIsThreshold(setup);
  }

  /** Otherwise the files are rolled first: the record starts a new one, and only as many of the former files stay as
      there may be besides. */
  lemma LargeFileRolls(setup: Setup, log: Log, record: string)
    requires SizeOf64Bits(setup) && log.open && log.files != []
    requires Bytes(setup, log.files[0]) > Threshold(setup.maxSize) && setup.maxFiles > 0
    ensures var n := if |log.files| < setup.maxFiles then |log.files| else setup.maxFiles - 1;
            Next(setup, log, Write(record)) == Log([[record]] + log.files[..n], true)
  {
    LimitIsThreshold(setup);
    assert [] + [record] == [record];
  }

  /** Without explicit rolls every file but the newest exceeds the configured size. */
  lemma OlderFilesExceed(setup: Setup, events: seq<Event>)
    requires SizeOf64Bits(setup) && NoRolls(events)
    ensures var files := Run(setup, events).files;
            forall i :: 1 <= i < |files| ==> Bytes(setup, files[i]) > Threshold(setup.maxSize)
  {
    LimitIsThreshold(setup);
    OlderFilesFull(setup, events);
  }

  // ----- The log on disk ---------------------------------------------------------------------

  type Disk = map<string, string>

  /** buildFileName: the number of an older file stands before the extension. */
  function FileName(setup: Setup, n: int := 0): string {
    setup.base + (if n > 0 then "." + Digits(n, false) else "") + (if setup.ext != "" then "." + setup.ext else "")
  }

  function NumberPart(n: nat): string {
    if n > 0 then "." + Digits(n, false) else ""
  }

  lemma NumberPartsDiffer(m: nat, n: nat)
    requires NumberPart(m) == NumberPart(n)
    ensures m == n
  {
    if m > 0 && n > 0 {
      assert NumberPart(m)[1..] == Digits(m, false) && NumberPart(n)[1..] == Digits(n, false);
      DigitsInjective(m, n, false);
    }
  }

  lemma MiddlesEqual(before: string, x: string, y: string, after: string)
    requires before + x + after == before + y + after
    ensures x == y
  {
    assert |x| == |y|;
    assert x == (before + x + after)[|before|..][..|x|];
    assert y == (before + y + after)[|before|..][..|y|];
  }

  /** Different files have different names. */
  lemma NamesDiffer(setup: Setup, m: nat, n: nat)
    ensures FileName(setup, m) == FileName(setup, n) ==> m == n
  {
    if FileName(setup, m) == FileName(setup, n) {
      MiddlesEqual(setup.base, NumberPart(m), NumberPart(n), if setup.ext != "" then "." + setup.ext else "");
      NumberPartsDiffer(m, n);
    }
  }

  /** findExtensionDot: the place of the last dot, or the end of a name without one. */
  function ExtensionDot(name: string): (d: nat)
    ensures d <= |name| && (d < |name| ==> name[d] == '.') && '.' !in name[if d < |name| then d + 1 else 0..]
  {
    if name == "" then 0
    else
      var last := |name| - 1;
      if name[last] == '.' then last
      else
        var d := ExtensionDot(name[..last]);
        if d == last then |name|
        else
          assert name[d + 1..] == name[..last][d + 1..] + [name[last]];
          d
  }

  /** splitFileName */
  predicate SplitsInto(name: string, base: string, ext: string) {
    var d := ExtensionDot(name);
    base == name[..d] && ext == if d < |name| then name[d + 1..] else ""
  }

  /** The newest file has the name that the appender was given, unless that ends with a dot. */
  lemma NameKept(setup: Setup, name: string)
    requires SplitsInto(name, setup.base, setup.ext)
    ensures FileName(setup) == name <==> name == "" || name[|name| - 1] != '.'
  {
    var d := ExtensionDot(name);
    assert d < |name| ==> name == name[..d] + ("." + name[d + 1..]);
    assert d < |name| - 1 ==> name[d + 1..][|name| - d - 2] == name[|name| - 1];
  }

  /** That of an older file has its number, behind a dot, in front of the last dot. */
  lemma NumberStands(setup: Setup, name: string, n: nat)
    requires SplitsInto(name, setup.base, setup.ext) && FileName(setup) == name && n > 0
    ensures var d := ExtensionDot(name);
            FileName(setup, n) == name[..d] + ("." + Digits(n, false)) + name[d..]
  {
    var d := ExtensionDot(name);
    if d < |name| { assert name[d..] == "." + name[d + 1..]; }
  }

  /** File n holds the header and these records, or does not exist. */
  predicate Holds(setup: Setup, disk: Disk, n: nat, file: Option<seq<string>>) {
    var name := FileName(setup, n);
    if file.None? then name !in disk else name in disk && disk[name] == setup.header + Concat(file.value)
  }

  type Slots = seq<Option<seq<string>>>

  /** The disk has these files, by number. */
  predicate HasSlots(setup: Setup, disk: Disk, slots: Slots) {
    |slots| == Capacity(setup) && forall n :: 0 <= n < |slots| ==> Holds(setup, disk, n, slots[n])
  }

  /** The slots of some files when those from `gap` on have moved up by one. */
  function SlotsWithGap(setup: Setup, files: seq<seq<string>>, gap: nat): (slots: Slots)
    ensures |slots| == Capacity(setup)
  {
    seq(Capacity(setup), n requires n >= 0 => var i := if n < gap then n else n - 1;
      if n != gap && i < |files| then Some(files[i]) else None)
  }

  predicate Represents(setup: Setup, disk: Disk, files: seq<seq<string>>) {
    |files| <= Capacity(setup) && HasSlots(setup, disk, SlotsWithGap(setup, files, Capacity(setup)))
  }

  ghost predicate SameBut(a: Disk, b: Disk, name: string) {
    forall other :: other != name ==> (other in a <==> other in b) && (other in a ==> a[other] == b[other])
  }

  predicate LogName(setup: Setup, name: string) {
    exists n :: 0 <= n < Capacity(setup) && name == FileName(setup, n)
  }

  /** Files that are not the appender's are the same on both disks. */
  ghost predicate SameOthers(setup: Setup, a: Disk, b: Disk) {
    forall name :: !LogName(setup, name) ==> (name in a <==> name in b) && (name in a ==> a[name] == b[name])
  }

  /** Changing one file changes one slot. */
  lemma FileChanged(setup: Setup, a: Disk, b: Disk, slots: Slots, n: nat, file: Option<seq<string>>)
    requires HasSlots(setup, a, slots) && n < |slots|
    requires SameBut(a, b, FileName(setup, n)) && Holds(setup, b, n, file)
    ensures HasSlots(setup, b, slots[n := file]) && SameOthers(setup, a, b)
  {
    assert LogName(setup, FileName(setup, n));
    var after := slots[n := file];
    forall m | 0 <= m < |after| ensures Holds(setup, b, m, after[m]) {
      NamesDiffer(setup, m, n);
      assert Holds(setup, a, m, slots[m]);
    }
  }

  /** rename(2): a missing file is left missing, an existing target is replaced. */
  function Rename(disk: Disk, from: string, to: string): Disk {
    if from !in disk || from == to then disk else (disk - {from})[to := disk[from]]
  }

  /** Renaming file k - 1 to k, where there is no file k, moves the gap down. */
  lemma RenameMovesGap(setup: Setup, disk: Disk, files: seq<seq<string>>, k: nat)
    requires 0 < k < Capacity(setup) && HasSlots(setup, disk, SlotsWithGap(setup, files, k))
    ensures var moved := Rename(disk, FileName(setup, k - 1), FileName(setup, k));
            HasSlots(setup, moved, SlotsWithGap(setup, files, k - 1)) && SameOthers(setup, disk, moved)
  {
    var from, to, slots := FileName(setup, k - 1), FileName(setup, k), SlotsWithGap(setup, files, k);
    NamesDiffer(setup, k - 1, k);
    assert Holds(setup, disk, k - 1, slots[k - 1]) && Holds(setup, disk, k, slots[k]);
    var removed := disk - {from};
    FileChanged(setup, disk, removed, slots, k - 1, None);
    FileChanged(setup, removed, Rename(disk, from, to), slots[k - 1 := None], k, slots[k - 1]);
    assert slots[k - 1 := None][k := slots[k - 1]] == SlotsWithGap(setup, files, k - 1);
  }

  /** Unlinking the last file leaves a gap at its place. */
  lemma UnlinkMakesGap(setup: Setup, disk: Disk, files: seq<seq<string>>)
    requires Represents(setup, disk, files)
    ensures var after := disk - {FileName(setup, setup.maxFiles - 1)};
            && HasSlots(setup, after, SlotsWithGap(setup, Kept(setup, files), Capacity(setup) - 1))
            && SameOthers(setup, disk, after)
  {
    var last := Capacity(setup) - 1;
    var slots := SlotsWithGap(setup, files, last + 1);
    FileChanged(setup, disk, disk - {FileName(setup, last)}, slots, last, None);
    assert slots[last := None] == SlotsWithGap(setup, Kept(setup, files), last);
  }

  /** A new file fills the gap at 0. */
  lemma GapFilled(setup: Setup, kept: seq<seq<string>>)
    requires |kept| < Capacity(setup)
    ensures SlotsWithGap(setup, kept, 0)[0 := Some([])] == SlotsWithGap(setup, [[]] + kept, Capacity(setup))
    ensures SlotsWithGap(setup, kept, 0)[0] == None
  {
  }

  lemma NewestOpened(setup: Setup, files: seq<seq<string>>)
    ensures var now, slots := Opened(Log(files, false)).files, SlotsWithGap(setup, files, Capacity(setup));
            && slots[0 := Some(now[0])] == SlotsWithGap(setup, now, Capacity(setup))
            && slots[0] == (if files == [] then None else Some(files[0]))
  {
  }

  /** Appending to the newest file adds a record to it. */
  lemma RecordAppended(setup: Setup, disk: Disk, log: Log, record: string)
    requires Represents(setup, disk, log.files) && log.files != []
    ensures FileName(setup) in disk
    ensures var after := disk[FileName(setup) := disk[FileName(setup)] + record];
            Represents(setup, after, Appended(log, record).files) && SameOthers(setup, disk, after)
  {
    var slots, name := SlotsWithGap(setup, log.files, Capacity(setup)), FileName(setup);
    assert Holds(setup, disk, 0, slots[0]);
    var after, grown := disk[name := disk[name] + record], log.files[0] + [record];
    ConcatAppend(log.files[0], record);
    assert after[name] == setup.header + Concat(grown);
    FileChanged(setup, disk, after, slots, 0, Some(grown));
    assert slots[0 := Some(grown)] == SlotsWithGap(setup, Appended(log, record).files, Capacity(setup));
  }

  class RollingFileAppender {
    const setup: Setup
    var disk: Disk
    var file: Option<string>
    var fileSize: int
    var firstWrite: bool
    ghost var log: Log

    ghost predicate Valid()
      reads this
    {
      && Represents(setup, disk, log.files) && firstWrite == !log.open
      && (log.open ==>
            && log.files != [] && file == Some(FileName(setup))
            && fileSize == Size(setup, log.files[0]))
    }

    /** A new appender finds the files an earlier one may have left. */
    constructor (setup: Setup, disk: Disk, ghost files: seq<seq<string>>)
      requires Represents(setup, disk, files)
      ensures Valid() && this.setup == setup && this.disk == disk && log == Log(files, false)
    {
      this.setup, this.disk, file, fileSize, firstWrite := setup, disk, None, 0, true;
      log := Log(files, false);
    }

    /** File::write on the open file, which is positioned at its end. */
    method WriteFile(text: string) returns (written: int)
      requires file.Some? && file.value in disk
      modifies this`disk
      ensures written == |text| && disk == old(disk)[file.value := old(disk)[file.value] + text]
    {
      disk := disk[file.value := disk[file.value] + text];
      written := |text|;
    }

    /** The newest file is there afterwards, with a header. */
    method OpenLogFile(ghost slots: Slots)
      requires HasSlots(setup, disk, slots)
      modifies this`disk, this`file, this`fileSize
      ensures var records := if slots[0].Some? then slots[0].value else [];
              && file == Some(FileName(setup)) && fileSize == Size(setup, records)
              && HasSlots(setup, disk, slots[0 := Some(records)])
      ensures SameOthers(setup, old(disk), disk)
    {
      var name := FileName(setup);
      assert Holds(setup, disk, 0, slots[0]);
      if name !in disk {
        disk := disk[name := ""];
      }
      file, fileSize := Some(name), |disk[name]|;
      if fileSize == 0 {
        var written := WriteFile(setup.header);
        if written > 0 {
          fileSize := fileSize + written;
        }
      }
      FileChanged(setup, old(disk), disk, slots, 0, Some(if slots[0].Some? then slots[0].value else []));
    }

    method RollLogFiles()
      requires Valid()
      modifies this
      ensures Valid() && log == Next(setup, old(log), Roll)
      ensures SameOthers(setup, old(disk), disk)
    {
      ghost var kept := Kept(setup, log.files);
      UnlinkMakesGap(setup, disk, log.files);
      file := None;
      disk := disk - {FileName(setup, setup.maxFiles - 1)};
      var fileNumber := setup.maxFiles - 2;
      while fileNumber >= 0
        invariant fileNumber < Capacity(setup) - 1
        invariant HasSlots(setup, disk, SlotsWithGap(setup, kept, if fileNumber < 0 then 0 else fileNumber + 1))
        invariant SameOthers(setup, old(disk), disk) && log == old(log)
      {
        RenameMovesGap(setup, disk, kept, fileNumber + 1);
        disk := Rename(disk, FileName(setup, fileNumber), FileName(setup, fileNumber + 1));
        fileNumber := fileNumber - 1;
      }
      GapFilled(setup, kept);
      OpenLogFile(SlotsWithGap(setup, kept, 0));
      firstWrite := false;
      log := Next(setup, log, Roll);
    }

    method Write(record: string)
      requires Valid()
      modifies this
      ensures Valid() && log == Next(setup, old(log), Event.Write(record))
      ensures SameOthers(setup, old(disk), disk)
    {
      if firstWrite {
        NewestOpened(setup, log.files);
        OpenLogFile(SlotsWithGap(setup, log.files, Capacity(setup)));
        firstWrite := false;
        log := Opened(log);
      } else if setup.maxFiles > 0 && fileSize > Limit(setup) && fileSize != -1 {
        RollLogFiles();
      }
      RecordAppended(setup, disk, log, record);
      ConcatAppend(log.files[0], record);
      var written := WriteFile(record);
      if written > 0 {
        fileSize := fileSize + written;
      }
      log := Appended(log, record);
    }
  }

  lemma {:induction false} ConcatAppend(records: seq<string>, record: string)
    ensures Concat(records + [record]) == Concat(records) + record
    decreases records
  {
    if records == [] {
      assert [] + [record] == [record] && [record][1..] == [];
    } else {
      assert (records + [record])[1..] == records[1..] + [record];
      ConcatAppend(records[1..], record);
    }
  }

  // ----- Reading the log back ---------------------------------------------------------------------

  /** What is in file n, without its header. */
  function Body(setup: Setup, disk: Disk, n: nat): string {
    var name := FileName(setup, n);
    if name in disk && |disk[name]| >= |setup.header| then disk[name][|setup.header|..] else ""
  }

  /** The files with numbers below n, from the oldest to the newest, without their headers. */
  function ReadBack(setup: Setup, disk: Disk, n: nat): string {
    if n == 0 then "" else Body(setup, disk, n - 1) + ReadBack(setup, disk, n - 1)
  }

  lemma {:induction false} ConcatBoth(a: seq<string>, b: seq<string>)
    ensures Concat(a + b) == Concat(a) + Concat(b)
    decreases a
  {
    if a == [] {
      assert a + b == b;
    } else {
      assert (a + b)[1..] == a[1..] + b;
      ConcatBoth(a[1..], b);
    }
  }

  lemma {:induction false} ReadBackIsFlat(setup: Setup, disk: Disk, files: seq<seq<string>>, n: nat)
    requires Represents(setup, disk, files) && n <= Capacity(setup)
    ensures ReadBack(setup, disk, n) == Concat(Flat(files[..if n < |files| then n else |files|]))
    decreases n
  {
    if n > 0 {
      ReadBackIsFlat(setup, disk, files, n - 1);
      BodyIs(setup, disk, files, n - 1);
      if n <= |files| { FlatUpTo(files, n); }
    }
  }

  lemma BodyIs(setup: Setup, disk: Disk, files: seq<seq<string>>, k: nat)
    requires Represents(setup, disk, files) && k < Capacity(setup)
    ensures Body(setup, disk, k) == if k < |files| then Concat(files[k]) else ""
  {
    assert Holds(setup, disk, k, SlotsWithGap(setup, files, Capacity(setup))[k]);
  }

  lemma FlatUpTo(files: seq<seq<string>>, n: nat)
    requires 0 < n <= |files|
    ensures Concat(Flat(files[..n])) == Concat(files[n - 1]) + Concat(Flat(files[..n - 1]))
  {
    assert files[..n] == files[..n - 1] + [files[n - 1]];
    FlatConcat(files[..n - 1], [files[n - 1]]);
    assert Flat([files[n - 1]]) == files[n - 1];
    ConcatBoth(files[n - 1], Flat(files[..n - 1]));
  }

  /** The bytes of a file are those it has on disk. */
  lemma BytesOnDisk(setup: Setup, disk: Disk, files: seq<seq<string>>, n: nat)
    requires Represents(setup, disk, files) && n < |files|
    ensures FileName(setup, n) in disk && |disk[FileName(setup, n)]| == Bytes(setup, files[n])
  {
    assert Holds(setup, disk, n, SlotsWithGap(setup, files, Capacity(setup))[n]);
  }

  /** After any run, the files on disk, read from the oldest to the newest without their headers, hold the
      end of what was written: all of it but the discarded files. */
  lemma DiskHoldsHistory(setup: Setup, disk: Disk, events: seq<Event>)
    requires Represents(setup, disk, Run(setup, events).files)
    ensures var n := |Lost(setup, events)|;
            && n <= |History(events)| && Lost(setup, events) == History(events)[..n]
            && ReadBack(setup, disk, Capacity(setup)) == Concat(History(events)[n..])
  {
    var files := Run(setup, events).files;
    HistoryKept(setup, events);
    ReadBackIsFlat(setup, disk, files, Capacity(setup));
    assert files[..|files|] == files;
  }

  /** Appenders driven through any list of events, each started again on the files that the one before it left:
      their files hold what the run says, and no other file is touched. */
  method Follow(setup: Setup, disk: Disk, events: seq<Event>) returns (appender: RollingFileAppender)
    requires Represents(setup, disk, [])
    ensures fresh(appender) && appender.Valid() && appender.setup == setup && appender.log == Run(setup, events)
    ensures SameOthers(setup, disk, appender.disk)
    ensures var n := |Lost(setup, events)|;
            && n <= |History(events)| && Lost(setup, events) == History(events)[..n]
            && ReadBack(setup, appender.disk, Capacity(setup)) == Concat(History(events)[n..])
  {
    appender := new RollingFileAppender(setup, disk, []);
    for i := 0 to |events|
      invariant fresh(appender) && appender.Valid() && appender.setup == setup
      invariant appender.log == Run(setup, events[..i]) && SameOthers(setup, disk, appender.disk)
    {
      assert events[..i + 1][..i] == events[..i];
      match events[i]
      case Write(record) => appender.Write(record);
      case Roll => appender.RollLogFiles();
      case Restart => appender := new RollingFileAppender(setup, appender.disk, appender.log.files);
    }
    assert events[..|events|] == events;
    DiskHoldsHistory(setup, appender.disk, events);
  }
}
