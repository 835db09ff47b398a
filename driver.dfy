/** The fixer's outer loop: the known files are visited in table order; a
    missing file ends the run with status 1, a file whose checksum differs is
    left alone, and a file whose checksum matches is backed up, patched, and
    written back if any patch was spliced in. The directory is a map from
    names to contents, the digest a function parameter, and everything the
    fixer prints, copies or writes is an event. */
module Driver {
  import opened Tables
  import opened Patch
  import opened FilePass

  /** The working directory: file names and their contents. */
  type FileSystem = map<string, seq<Byte>>

  /** What the fixer does that can be observed, in order. */
  datatype Event =
    | NotFound(file: string)                // reported, then the run exits
    | Exit(status: int)
    | NotOriginal(file: string)             // checksum differs: not backed up, not modified
    | Backup(file: string)                  // copied to OrigName(file)
    | AlreadyReceived(file: string, index: nat)
    | WontApply(file: string, index: nat)
    | Write(file: string, data: seq<Byte>)  // the file is replaced by `data`

  /** The event concerns the file `f`. */
  predicate About(e: Event, f: string) {
    !e.Exit? && e.file == f
  }

  /** The lines printed for the outcomes of one file's pass: the splice
      branch prints nothing. */
  function Messages(file: string, reports: seq<Report>): (ms: seq<Event>)
    ensures forall e :: e in ms ==> (e.AlreadyReceived? || e.WontApply?) && e.file == file
    ensures |ms| <= |reports|
  {
    if reports == [] then []
    else
      var r := reports[0];
      var m := match r.outcome
        case AlreadyApplied => [AlreadyReceived(file, r.index)]
        case Mismatch => [WontApply(file, r.index)]
        case Applied => [];
      m + Messages(file, reports[1..])
  }

  /** The lines keep the order of the reports: the lines for a run of
      reports followed by another are the first run's lines, then the
      second's. */
  lemma {:induction false} MessagesInOrder(file: string, a: seq<Report>, b: seq<Report>)
    ensures Messages(file, a + b) == Messages(file, a) + Messages(file, b)
  {
    if a != [] {
      assert (a + b)[1..] == a[1..] + b;
      MessagesInOrder(file, a[1..], b);
    } else {
      assert a + b == b;
    }
  }

  /** The number of reports whose entry was spliced in. */
  function CountApplied(reports: seq<Report>): (n: nat)
    ensures n <= |reports|
  {
    if reports == [] then 0
    else (if reports[0].outcome == Applied then 1 else 0) + CountApplied(reports[1..])
  }

  /** Each report prints its own line: an already-received line with its
      patch number exactly for an entry found already applied, a won't-apply
      line with its patch number exactly for a mismatching entry, and one
      line for every entry that was not spliced in. */
  lemma {:induction false} MessagesLines(file: string, reports: seq<Report>)
    ensures forall n :: AlreadyReceived(file, n) in Messages(file, reports) <==>
      exists i :: 0 <= i < |reports| && reports[i] == Report(n, AlreadyApplied)
    ensures forall n :: WontApply(file, n) in Messages(file, reports) <==>
      exists i :: 0 <= i < |reports| && reports[i] == Report(n, Mismatch)
    ensures |Messages(file, reports)| == |reports| - CountApplied(reports)
  {
    if reports != [] {
      var r, rest := reports[0], reports[1..];
      MessagesLines(file, rest);
      forall n, o | o == AlreadyApplied || o == Mismatch
        ensures (if o == AlreadyApplied then AlreadyReceived(file, n) else WontApply(file, n)) in Messages(file, reports) <==>
          exists i :: 0 <= i < |reports| && reports[i] == Report(n, o)
      {
        var line := if o == AlreadyApplied then AlreadyReceived(file, n) else WontApply(file, n);
        if line in Messages(file, rest) {
          var i :| 0 <= i < |rest| && rest[i] == Report(n, o);
          assert reports[i + 1] == Report(n, o);
        }
        if r == Report(n, o) {
          assert reports[0] == Report(n, o);
        }
        if exists i :: 0 <= i < |reports| && reports[i] == Report(n, o) {
          var i :| 0 <= i < |reports| && reports[i] == Report(n, o);
          if i > 0 {
            assert rest[i - 1] == Report(n, o);
          }
        }
      }
    }
  }

  /** The directory, the events so far, and whether the run has exited. */
  datatype RunState = RunState(fs: FileSystem, events: seq<Event>, exited: bool)

  /** The body of the outer loop for one known file and its expected digest. */
  function Visit(fixes: seq<Fix>, entry: (string, string), checksum: seq<Byte> -> string, st: RunState): RunState
  {
    var (file, sum) := entry;
    if file !in st.fs then RunState(st.fs, st.events + [NotFound(file), Exit(1)], true)
    else if checksum(st.fs[file]) != sum then RunState(st.fs, st.events + [NotOriginal(file)], false)
    else
      var data := st.fs[file];
      var r := Pass(file, fixes, data);
      var backedUp := st.fs[OrigName(file) := data];
      RunState(
        if r.changed then backedUp[file := r.data] else backedUp,
        st.events + [Backup(file)] + Messages(file, r.reports) + (if r.changed then [Write(file, r.data)] else []),
        false)
  }

  /** The run once the first `k` known files have been visited; once it has
      exited, later files are not visited. */
  function RunUpTo(fixes: seq<Fix>, sums: seq<(string, string)>, checksum: seq<Byte> -> string, fs: FileSystem, k: nat): RunState
    requires k <= |sums|
  {
    if k == 0 then RunState(fs, [], false)
    else
      var st := RunUpTo(fixes, sums, checksum, fs, k - 1);
      if st.exited then st else Visit(fixes, sums[k - 1], checksum, st)
  }

  /** One more step of the run. */
  lemma RunStep(fixes: seq<Fix>, sums: seq<(string, string)>, checksum: seq<Byte> -> string, fs: FileSystem, k: nat)
    requires 0 < k <= |sums|
    ensures var st := RunUpTo(fixes, sums, checksum, fs, k - 1);
      RunUpTo(fixes, sums, checksum, fs, k) == if st.exited then st else Visit(fixes, sums[k - 1], checksum, st)
  {
  }

  /** The run has exited after one more step exactly when it had exited
      before or the next known file is missing. */
  lemma RunStepExited(fixes: seq<Fix>, sums: seq<(string, string)>, checksum: seq<Byte> -> string, fs: FileSystem, k: nat)
    requires 0 < k <= |sums|
    ensures RunUpTo(fixes, sums, checksum, fs, k).exited <==>
      RunUpTo(fixes, sums, checksum, fs, k - 1).exited || sums[k - 1].0 !in RunUpTo(fixes, sums, checksum, fs, k - 1).fs
  {
    var st := RunUpTo(fixes, sums, checksum, fs, k - 1);
    if !st.exited {
      VisitAppends(fixes, sums[k - 1], checksum, st);
    }
  }

  /** One step of the run only appends events. */
  lemma RunStepEvents(fixes: seq<Fix>, sums: seq<(string, string)>, checksum: seq<Byte> -> string, fs: FileSystem, k: nat)
    requires 0 < k <= |sums|
    ensures IsPrefix(RunUpTo(fixes, sums, checksum, fs, k - 1).events, RunUpTo(fixes, sums, checksum, fs, k).events)
  {
    var st := RunUpTo(fixes, sums, checksum, fs, k - 1);
    if !st.exited {
      VisitAppends(fixes, sums[k - 1], checksum, st);
    }
  }

  /** One step of the run changes neither the presence nor the contents of
      a name other than the next known file and its backup. */
  lemma RunStepFrame(fixes: seq<Fix>, sums: seq<(string, string)>, checksum: seq<Byte> -> string, fs: FileSystem, k: nat, x: string)
    requires 0 < k <= |sums| && x != sums[k - 1].0 && x != OrigName(sums[k - 1].0)
    ensures x in RunUpTo(fixes, sums, checksum, fs, k).fs <==> x in RunUpTo(fixes, sums, checksum, fs, k - 1).fs
    ensures x in RunUpTo(fixes, sums, checksum, fs, k - 1).fs ==>
      RunUpTo(fixes, sums, checksum, fs, k).fs[x] == RunUpTo(fixes, sums, checksum, fs, k - 1).fs[x]
  {
    var st := RunUpTo(fixes, sums, checksum, fs, k - 1);
    if !st.exited {
      VisitFrame(fixes, sums[k - 1], checksum, st);
    }
  }

  /** The whole run. */
  function RunAll(fixes: seq<Fix>, sums: seq<(string, string)>, checksum: seq<Byte> -> string, fs: FileSystem): RunState {
    RunUpTo(fixes, sums, checksum, fs, |sums|)
  }

  /** The body of the fixer's main loop for one known file: read it, or
      report it missing and stop; compare its digest; back it up, patch the
      buffer, and write it back if a patch was spliced in. */
  method VisitFile(fixes: seq<Fix>, entry: (string, string), checksum: seq<Byte> -> string,
                   fs0: FileSystem, events0: seq<Event>)
    returns (fs: FileSystem, events: seq<Event>, exited: bool)
    ensures RunState(fs, events, exited) == Visit(fixes, entry, checksum, RunState(fs0, events0, false))
  {
    var (name, expectedSum) := entry;
    fs, events := fs0, events0;
    if name !in fs {
      events := events + [NotFound(name), Exit(1)];
      return fs, events, true;
    }
    var data := fs[name];
    var actualSum := checksum(data);
    if actualSum != expectedSum {
      events := events + [NotOriginal(name)];
      return fs, events, false;
    }
    events := events + [Backup(name)];
    fs := fs[OrigName(name) := data];
    var newData, changed, reports := PatchFile(name, fixes, data);
    events := events + Messages(name, reports);
    if changed {
      fs := fs[name := newData];
      events := events + [Write(name, newData)];
    }
    exited := false;
  }

  /** The fixer's main loop: the known files in table order, stopping with
      status 1 at the first missing one. */
  method Run(fixes: seq<Fix>, sums: seq<(string, string)>, checksum: seq<Byte> -> string, initial: FileSystem)
    returns (fs: FileSystem, events: seq<Event>, status: int)
    ensures var st := RunAll(fixes, sums, checksum, initial);
      fs == st.fs && events == st.events && status == (if st.exited then 1 else 0)
  {
    fs, events := initial, [];
    var k, exited := 0, false;
    while k < |sums| && !exited
      invariant k <= |sums|
      invariant RunUpTo(fixes, sums, checksum, initial, k) == RunState(fs, events, exited)
    {
      fs, events, exited := VisitFile(fixes, sums[k], checksum, fs, events);
      k := k + 1;
    }
    if exited {
      ExitIsFinal(fixes, sums, checksum, initial, k, |sums|);
    }
    status := if exited then 1 else 0;
  }

  // ---------------------------------------------------------------------
  // Properties of every run

  /** One visit only appends events, and the run exits exactly when the
      file is missing. */
  lemma VisitAppends(fixes: seq<Fix>, entry: (string, string), checksum: seq<Byte> -> string, st: RunState)
    ensures var v, n := Visit(fixes, entry, checksum, st), |st.events|;
      && n < |v.events| && v.events[..n] == st.events
      && (v.exited <==> entry.0 !in st.fs)
  {
  }

  /** Each event one visit appends is about the visited file or is the
      exit, and a write comes after the backup that opens the visit. */
  lemma VisitConcerns(fixes: seq<Fix>, entry: (string, string), checksum: seq<Byte> -> string, st: RunState)
    ensures var v, n := Visit(fixes, entry, checksum, st), |st.events|;
      && (forall p :: n <= p < |v.events| ==> (v.events[p].Exit? && v.exited) || About(v.events[p], entry.0))
      && (forall p :: n <= p < |v.events| && v.events[p].Write? ==> v.events[n] == Backup(entry.0))
  {
    var v, n := Visit(fixes, entry, checksum, st), |st.events|;
    var (file, sum) := entry;
    if file in st.fs && checksum(st.fs[file]) == sum {
      var r := Pass(file, fixes, st.fs[file]);
      var ms := Messages(file, r.reports);
      var writes := if r.changed then [Write(file, r.data)] else [];
      assert v.events == st.events + [Backup(file)] + ms + writes;
      forall p | n <= p < |v.events|
        ensures About(v.events[p], file)
        ensures v.events[p].Write? ==> v.events[n] == Backup(file)
      {
        var i := p - n;
        if 0 < i <= |ms| {
          assert v.events[p] == ms[i - 1];
          assert ms[i - 1] in ms;
        } else if i > |ms| {
          assert v.events[p] == writes[i - 1 - |ms|];
        }
      }
    }
  }

  /** One visit changes at most the visited file and its backup name. */
  lemma VisitFrame(fixes: seq<Fix>, entry: (string, string), checksum: seq<Byte> -> string, st: RunState)
    ensures var v := Visit(fixes, entry, checksum, st);
      forall x :: x != entry.0 && x != OrigName(entry.0) ==>
        (x in v.fs <==> x in st.fs) && (x in st.fs ==> v.fs[x] == st.fs[x])
  {
  }

  /** Once the run has exited, nothing more happens. */
  lemma {:induction false} ExitIsFinal(fixes: seq<Fix>, sums: seq<(string, string)>, checksum: seq<Byte> -> string, fs: FileSystem, k: nat, n: nat)
    requires k <= n <= |sums|
    requires RunUpTo(fixes, sums, checksum, fs, k).exited
    ensures RunUpTo(fixes, sums, checksum, fs, n) == RunUpTo(fixes, sums, checksum, fs, k)
  {
    if n > k {
      ExitIsFinal(fixes, sums, checksum, fs, k, n - 1);
    }
  }

  /** If the `p`-th event is a write, a backup of the same file comes
      before it. */
  predicate WriteIsBackedUp(ev: seq<Event>, p: nat)
    requires p < |ev|
  {
    ev[p].Write? ==> exists q :: 0 <= q < p && ev[q] == Backup(ev[p].file)
  }

  /** Every write is preceded by a backup of the same file. */
  lemma {:induction false} BackupBeforeWrite(fixes: seq<Fix>, sums: seq<(string, string)>, checksum: seq<Byte> -> string, fs: FileSystem, k: nat)
    requires k <= |sums|
    ensures forall p :: 0 <= p < |RunUpTo(fixes, sums, checksum, fs, k).events| ==>
      WriteIsBackedUp(RunUpTo(fixes, sums, checksum, fs, k).events, p)
  {
    if k > 0 {
      BackupBeforeWrite(fixes, sums, checksum, fs, k - 1);
      var st := RunUpTo(fixes, sums, checksum, fs, k - 1);
      RunStep(fixes, sums, checksum, fs, k);
      if !st.exited {
        VisitAppends(fixes, sums[k - 1], checksum, st);
        VisitConcerns(fixes, sums[k - 1], checksum, st);
        var ev := RunUpTo(fixes, sums, checksum, fs, k).events;
        var n := |st.events|;
        forall p | 0 <= p < |ev| && ev[p].Write?
          ensures WriteIsBackedUp(ev, p)
        {
          if p < n {
            assert ev[p] == st.events[p] && WriteIsBackedUp(st.events, p);
            var q :| 0 <= q < p && st.events[q] == Backup(st.events[p].file);
            assert ev[q] == st.events[q];
          } else {
            assert About(ev[p], sums[k - 1].0);
            assert ev[n] == Backup(ev[p].file);
          }
        }
      }
    }
  }

  /** `x` is none of the names the visits of the `lo`-th to `hi - 1`-th
      known files may change in the directory (each file and its backup). */
  predicate Untouched(sums: seq<(string, string)>, lo: nat, hi: nat, x: string)
    requires lo <= hi <= |sums|
  {
    forall j :: lo <= j < hi ==> x != sums[j].0 && x != OrigName(sums[j].0)
  }

  /** Between two points of the run the events only grow. */
  lemma {:induction false} Growth(fixes: seq<Fix>, sums: seq<(string, string)>, checksum: seq<Byte> -> string, fs: FileSystem, k0: nat, k: nat)
    requires k0 <= k <= |sums|
    ensures IsPrefix(RunUpTo(fixes, sums, checksum, fs, k0).events, RunUpTo(fixes, sums, checksum, fs, k).events)
  {
    if k > k0 {
      Growth(fixes, sums, checksum, fs, k0, k - 1);
      var a := RunUpTo(fixes, sums, checksum, fs, k0);
      var m := RunUpTo(fixes, sums, checksum, fs, k - 1);
      var b := RunUpTo(fixes, sums, checksum, fs, k);
      RunStepEvents(fixes, sums, checksum, fs, k);
      PrefixOfPrefix(a.events, m.events, b.events);
    }
  }

  /** `a` is a prefix of `b`. */
  predicate IsPrefix(a: seq<Event>, b: seq<Event>) {
    |a| <= |b| && b[..|a|] == a
  }

  /** A prefix of a prefix is a prefix. */
  lemma PrefixOfPrefix(a: seq<Event>, m: seq<Event>, b: seq<Event>)
    requires IsPrefix(a, m) && IsPrefix(m, b)
    ensures IsPrefix(a, b)
  {
    assert b[..|a|] == b[..|m|][..|a|];
  }

  /** The event is the exit of a run that has exited, or is about one of
      the `lo`-th to `hi - 1`-th known files. */
  predicate FromVisits(sums: seq<(string, string)>, lo: nat, hi: nat, e: Event, exited: bool)
    requires lo <= hi <= |sums|
  {
    (e.Exit? && exited) || exists j :: lo <= j < hi && About(e, sums[j].0)
  }

  /** The events added between two points of the run are about the files
      visited in between, or are the exit. */
  lemma {:induction false} NewEventsAbout(fixes: seq<Fix>, sums: seq<(string, string)>, checksum: seq<Byte> -> string, fs: FileSystem, k0: nat, k: nat)
    requires k0 <= k <= |sums|
    ensures forall p :: |RunUpTo(fixes, sums, checksum, fs, k0).events| <= p < |RunUpTo(fixes, sums, checksum, fs, k).events| ==>
      FromVisits(sums, k0, k, RunUpTo(fixes, sums, checksum, fs, k).events[p], RunUpTo(fixes, sums, checksum, fs, k).exited)
  {
    if k > k0 {
      NewEventsAbout(fixes, sums, checksum, fs, k0, k - 1);
      var a := RunUpTo(fixes, sums, checksum, fs, k0);
      var m := RunUpTo(fixes, sums, checksum, fs, k - 1);
      RunStep(fixes, sums, checksum, fs, k);
      var b := RunUpTo(fixes, sums, checksum, fs, k);
      if !m.exited {
        VisitAppends(fixes, sums[k - 1], checksum, m);
        VisitConcerns(fixes, sums[k - 1], checksum, m);
        ExtendFromVisits(sums, k0, k, |a.events|, m.events, m.exited, b.events, b.exited);
      } else {
        WidenFromVisits(sums, k0, k, |a.events|, m.events, m.exited);
      }
    }
  }

  /** Events from the visits before `k - 1` are also from those before `k`. */
  lemma WidenFromVisits(sums: seq<(string, string)>, k0: nat, k: nat, n: nat, events: seq<Event>, exited: bool)
    requires k0 < k <= |sums|
    requires forall p :: n <= p < |events| ==> FromVisits(sums, k0, k - 1, events[p], exited)
    ensures forall p :: n <= p < |events| ==> FromVisits(sums, k0, k, events[p], exited)
  {
    forall p | n <= p < |events|
      ensures FromVisits(sums, k0, k, events[p], exited)
    {
      if !(events[p].Exit? && exited) {
        var j :| k0 <= j < k - 1 && About(events[p], sums[j].0);
      }
    }
  }

  /** One more visit keeps the events from earlier visits and adds events
      about its own file, or the exit. */
  lemma ExtendFromVisits(sums: seq<(string, string)>, k0: nat, k: nat, n: nat,
                          before: seq<Event>, exitedBefore: bool, after: seq<Event>, exited: bool)
    requires k0 < k <= |sums| && |before| <= |after| && after[..|before|] == before && !exitedBefore
    requires forall p :: n <= p < |before| ==> FromVisits(sums, k0, k - 1, before[p], exitedBefore)
    requires forall p :: |before| <= p < |after| ==> (after[p].Exit? && exited) || About(after[p], sums[k - 1].0)
    ensures forall p :: n <= p < |after| ==> FromVisits(sums, k0, k, after[p], exited)
  {
    forall p | n <= p < |after|
      ensures FromVisits(sums, k0, k, after[p], exited)
    {
      if p < |before| {
        assert after[p] == after[..|before|][p] == before[p];
        var j :| k0 <= j < k - 1 && About(before[p], sums[j].0);
        assert About(after[p], sums[j].0);
      } else if !(after[p].Exit? && exited) {
        assert About(after[p], sums[k - 1].0);
      }
    }
  }

  /** A name no visit between two points touches keeps its presence and its
      contents. */
  lemma {:induction false} Frame(fixes: seq<Fix>, sums: seq<(string, string)>, checksum: seq<Byte> -> string, fs: FileSystem, k0: nat, k: nat, x: string)
    requires k0 <= k <= |sums|
    requires Untouched(sums, k0, k, x)
    ensures var a, b := RunUpTo(fixes, sums, checksum, fs, k0), RunUpTo(fixes, sums, checksum, fs, k);
      && (x in b.fs <==> x in a.fs)
      && (x in a.fs ==> b.fs[x] == a.fs[x])
  {
    if k > k0 {
      Frame(fixes, sums, checksum, fs, k0, k - 1, x);
      assert x != sums[k - 1].0 && x != OrigName(sums[k - 1].0);
      RunStepFrame(fixes, sums, checksum, fs, k, x);
    }
  }

  /** The known file names are distinct, and none is the backup name of
      another. */
  predicate Independent(sums: seq<(string, string)>) {
    && (forall i, j :: 0 <= i < j < |sums| ==> sums[i].0 != sums[j].0)
    && (forall i, j {:trigger sums[i], OrigName(sums[j].0)} :: 0 <= i < |sums| && 0 <= j < |sums| ==>
          sums[i].0 != OrigName(sums[j].0))
  }

  /** Before its visit, a known file is where it was at the start of the run. */
  lemma UntouchedBefore(fixes: seq<Fix>, sums: seq<(string, string)>, checksum: seq<Byte> -> string, fs: FileSystem, k: nat)
    requires Independent(sums) && k < |sums|
    ensures var a, f := RunUpTo(fixes, sums, checksum, fs, k), sums[k].0;
      && (f in a.fs <==> f in fs)
      && (f in fs ==> a.fs[f] == fs[f])
  {
    var f := sums[k].0;
    assert Untouched(sums, 0, k, f);
    Frame(fixes, sums, checksum, fs, 0, k, f);
  }

  /** One of the first `k` known files is missing from `fs`. */
  predicate SomeMissing(sums: seq<(string, string)>, fs: FileSystem, k: nat)
    requires k <= |sums|
  {
    exists j :: 0 <= j < k && sums[j].0 !in fs
  }

  /** With independent names, the run has exited after `k` visits exactly
      when one of the first `k` known files was missing at the start. */
  lemma {:induction false} ExitedIffMissing(fixes: seq<Fix>, sums: seq<(string, string)>, checksum: seq<Byte> -> string, fs: FileSystem, k: nat)
    requires Independent(sums) && k <= |sums|
    ensures RunUpTo(fixes, sums, checksum, fs, k).exited <==> SomeMissing(sums, fs, k)
  {
    if k > 0 {
      ExitedIffMissing(fixes, sums, checksum, fs, k - 1);
      RunStepExited(fixes, sums, checksum, fs, k);
      UntouchedBefore(fixes, sums, checksum, fs, k - 1);
      var m := RunUpTo(fixes, sums, checksum, fs, k - 1);
      MissingStep(sums, fs, k, m.exited, RunUpTo(fixes, sums, checksum, fs, k).exited);
    }
  }

  /** "Some known file among the first `k` is missing" grows one file at a
      time. */
  lemma MissingStep(sums: seq<(string, string)>, fs: FileSystem, k: nat, before: bool, after: bool)
    requires 0 < k <= |sums|
    requires before <==> SomeMissing(sums, fs, k - 1)
    requires after <==> before || sums[k - 1].0 !in fs
    ensures after <==> SomeMissing(sums, fs, k)
  {
    if before {
      var j :| 0 <= j < k - 1 && sums[j].0 !in fs;
      assert 0 <= j < k && sums[j].0 !in fs;
    } else if sums[k - 1].0 !in fs {
      assert 0 <= k - 1 < k && sums[k - 1].0 !in fs;
    }
  }

  /** A missing file ends the run at once with status 1: the last two events
      report it and exit, and no later known file is touched. */
  lemma MissingFileHalts(fixes: seq<Fix>, sums: seq<(string, string)>, checksum: seq<Byte> -> string, fs: FileSystem, k: nat)
    requires Independent(sums) && k < |sums|
    requires forall j :: 0 <= j < k ==> sums[j].0 in fs
    requires sums[k].0 !in fs
    ensures var st := RunAll(fixes, sums, checksum, fs);
      && st.exited
      && |st.events| >= 2 && st.events[|st.events| - 2..] == [NotFound(sums[k].0), Exit(1)]
      && forall p, j :: 0 <= p < |st.events| && k < j < |sums| ==> !About(st.events[p], sums[j].0)
  {
    assert !SomeMissing(sums, fs, k);
    ExitedIffMissing(fixes, sums, checksum, fs, k);
    UntouchedBefore(fixes, sums, checksum, fs, k);
    RunStep(fixes, sums, checksum, fs, k + 1);
    ExitIsFinal(fixes, sums, checksum, fs, k + 1, |sums|);
    NewEventsAbout(fixes, sums, checksum, fs, 0, k);
    HaltShape(sums, k, RunUpTo(fixes, sums, checksum, fs, k).events, RunAll(fixes, sums, checksum, fs).events);
  }

  /** The events of a run that halts at the `k`-th known file: the earlier
      events are about earlier files, and the last two report the missing
      file and exit, so no event is about a later file. */
  lemma HaltShape(sums: seq<(string, string)>, k: nat, before: seq<Event>, events: seq<Event>)
    requires Independent(sums) && k < |sums|
    requires forall p :: 0 <= p < |before| ==> FromVisits(sums, 0, k, before[p], false)
    requires events == before + [NotFound(sums[k].0), Exit(1)]
    ensures |events| >= 2 && events[|events| - 2..] == [NotFound(sums[k].0), Exit(1)]
    ensures forall p, j :: 0 <= p < |events| && k < j < |sums| ==> !About(events[p], sums[j].0)
  {
    forall p, j | 0 <= p < |events| && k < j < |sums| ensures !About(events[p], sums[j].0) {
      if p < |before| {
        assert events[p] == before[p];
        var i :| 0 <= i < k && About(before[p], sums[i].0);
        assert sums[i].0 != sums[j].0;
      }
    }
  }

  /** With every known file present, the run visits them all and ends with
      status 0 and no exit event. */
  lemma AllPresentNoExit(fixes: seq<Fix>, sums: seq<(string, string)>, checksum: seq<Byte> -> string, fs: FileSystem)
    requires Independent(sums)
    requires forall j :: 0 <= j < |sums| ==> sums[j].0 in fs
    ensures var st := RunAll(fixes, sums, checksum, fs);
      !st.exited && forall e :: e in st.events ==> !e.Exit?
  {
    ExitedIffMissing(fixes, sums, checksum, fs, |sums|);
    NewEventsAbout(fixes, sums, checksum, fs, 0, |sums|);
    var st := RunAll(fixes, sums, checksum, fs);
    forall e | e in st.events ensures !e.Exit? {
      var p :| 0 <= p < |st.events| && st.events[p] == e;
    }
  }

  /** The visit of the `k`-th known file, when every file up to it is
      present, finds the file and its backup name as they were at the start;
      afterwards nothing touches either name. */
  lemma IsolatedVisit(fixes: seq<Fix>, sums: seq<(string, string)>, checksum: seq<Byte> -> string, fs: FileSystem, k: nat)
    requires Independent(sums) && k < |sums|
    requires forall j :: 0 <= j <= k ==> sums[j].0 in fs
    ensures var a, b := RunUpTo(fixes, sums, checksum, fs, k), RunUpTo(fixes, sums, checksum, fs, k + 1);
      var st, f, g := RunAll(fixes, sums, checksum, fs), sums[k].0, OrigName(sums[k].0);
      && !a.exited && f in a.fs && a.fs[f] == fs[f]
      && (g in a.fs <==> g in fs) && (g in fs ==> a.fs[g] == fs[g])
      && b == Visit(fixes, sums[k], checksum, a)
      && (f in st.fs <==> f in b.fs) && (f in b.fs ==> st.fs[f] == b.fs[f])
      && (g in st.fs <==> g in b.fs) && (g in b.fs ==> st.fs[g] == b.fs[g])
  {
    var f, g := sums[k].0, OrigName(sums[k].0);
    ExitedIffMissing(fixes, sums, checksum, fs, k);
    UntouchedBefore(fixes, sums, checksum, fs, k);
    forall j | 0 <= j < |sums| && j != k ensures g != sums[j].0 && g != OrigName(sums[j].0) {
      OrigNameInjective(f, sums[j].0);
    }
    Frame(fixes, sums, checksum, fs, 0, k, g);
    assert Untouched(sums, k + 1, |sums|, f) && Untouched(sums, k + 1, |sums|, g);
    Frame(fixes, sums, checksum, fs, k + 1, |sums|, f);
    Frame(fixes, sums, checksum, fs, k + 1, |sums|, g);
  }

  /** The events of a run split around the visit of the `k`-th known file,
      when every file up to it is present: none before or after the visit
      concerns that file. */
  lemma IsolatedEvents(fixes: seq<Fix>, sums: seq<(string, string)>, checksum: seq<Byte> -> string, fs: FileSystem, k: nat)
    requires Independent(sums) && k < |sums|
    requires forall j :: 0 <= j <= k ==> sums[j].0 in fs
    ensures var a, b := RunUpTo(fixes, sums, checksum, fs, k), RunUpTo(fixes, sums, checksum, fs, k + 1);
      var st, f := RunAll(fixes, sums, checksum, fs), sums[k].0;
      && |a.events| <= |b.events| <= |st.events|
      && st.events == a.events + b.events[|a.events|..] + st.events[|b.events|..]
      && (forall e :: e in a.events ==> !About(e, f))
      && (forall e :: e in st.events[|b.events|..] ==> !About(e, f))
  {
    var f := sums[k].0;
    ExitedIffMissing(fixes, sums, checksum, fs, k);
    var a := RunUpTo(fixes, sums, checksum, fs, k);
    var b := RunUpTo(fixes, sums, checksum, fs, k + 1);
    var st := RunAll(fixes, sums, checksum, fs);
    Growth(fixes, sums, checksum, fs, 0, k);
    NewEventsAbout(fixes, sums, checksum, fs, 0, k);
    Growth(fixes, sums, checksum, fs, k, k + 1);
    Growth(fixes, sums, checksum, fs, k + 1, |sums|);
    NewEventsAbout(fixes, sums, checksum, fs, k + 1, |sums|);
    assert st.events == a.events + b.events[|a.events|..] + st.events[|b.events|..] by {
      assert st.events == b.events + st.events[|b.events|..];
      assert b.events == a.events + b.events[|a.events|..];
    }
    forall e | e in a.events ensures !About(e, f) {
      var p :| 0 <= p < |a.events| && a.events[p] == e;
      var i :| 0 <= i < k && About(a.events[p], sums[i].0);
      assert sums[i].0 != f;
    }
    forall e | e in st.events[|b.events|..] ensures !About(e, f) {
      var p :| |b.events| <= p < |st.events| && st.events[p] == e;
      if !e.Exit? {
        var i :| k + 1 <= i < |sums| && About(st.events[p], sums[i].0);
        assert sums[i].0 != f;
      }
    }
  }

  /** What a run leaves of one known file it visits. Its checksum is taken
      of the contents found at the start. On a match the backup holds those
      contents and the file holds the pass's result if the pass spliced
      anything in; on a mismatch the file and any backup of it stay as they
      were. */
  lemma FileFate(fixes: seq<Fix>, sums: seq<(string, string)>, checksum: seq<Byte> -> string, fs: FileSystem, k: nat)
    requires Independent(sums) && k < |sums|
    requires forall j :: 0 <= j <= k ==> sums[j].0 in fs
    ensures var st, f, sum := RunAll(fixes, sums, checksum, fs), sums[k].0, sums[k].1;
      var d := fs[f];
      var r := Pass(f, fixes, d);
      && f in st.fs
      && st.fs[f] == (if checksum(d) == sum && r.changed then r.data else d)
      && (checksum(d) == sum ==> OrigName(f) in st.fs && st.fs[OrigName(f)] == d)
      && (checksum(d) != sum ==>
            && (OrigName(f) in st.fs <==> OrigName(f) in fs)
            && (OrigName(f) in fs ==> st.fs[OrigName(f)] == fs[OrigName(f)]))
  {
    IsolatedVisit(fixes, sums, checksum, fs, k);
  }

  /** What a run reports of one known file it visits: a backup exactly when
      the checksum of the contents found at the start matches, and a write
      with the pass's result exactly when it also matches and the pass
      spliced something in. */
  lemma FileEvents(fixes: seq<Fix>, sums: seq<(string, string)>, checksum: seq<Byte> -> string, fs: FileSystem, k: nat)
    requires Independent(sums) && k < |sums|
    requires forall j :: 0 <= j <= k ==> sums[j].0 in fs
    ensures var st, f, sum := RunAll(fixes, sums, checksum, fs), sums[k].0, sums[k].1;
      var d := fs[f];
      var r := Pass(f, fixes, d);
      && (Backup(f) in st.events <==> checksum(d) == sum)
      && forall data :: Write(f, data) in st.events <==> checksum(d) == sum && r.changed && data == r.data
  {
    var f := sums[k].0;
    IsolatedVisit(fixes, sums, checksum, fs, k);
    IsolatedEvents(fixes, sums, checksum, fs, k);
    var a := RunUpTo(fixes, sums, checksum, fs, k);
    var b := RunUpTo(fixes, sums, checksum, fs, k + 1);
    var st := RunAll(fixes, sums, checksum, fs);
    var visit, rest := b.events[|a.events|..], st.events[|b.events|..];
    VisitEvents(fixes, sums[k], checksum, a);
    OnlyInVisit(a.events, visit, rest, f, Backup(f));
    forall data ensures Write(f, data) in st.events <==> Write(f, data) in visit {
      OnlyInVisit(a.events, visit, rest, f, Write(f, data));
    }
  }

  /** The backup and write events of one visit of a present file. */
  lemma VisitEvents(fixes: seq<Fix>, entry: (string, string), checksum: seq<Byte> -> string, st: RunState)
    requires entry.0 in st.fs
    ensures var v, f, d := Visit(fixes, entry, checksum, st), entry.0, st.fs[entry.0];
      var r, visit := Pass(f, fixes, d), v.events[|st.events|..];
      && |st.events| <= |v.events|
      && (Backup(f) in visit <==> checksum(d) == entry.1)
      && forall data :: Write(f, data) in visit <==> checksum(d) == entry.1 && r.changed && data == r.data
  {
    var v, f, d := Visit(fixes, entry, checksum, st), entry.0, st.fs[entry.0];
    var r, visit := Pass(f, fixes, d), v.events[|st.events|..];
    if checksum(d) == entry.1 {
      var ms := Messages(f, r.reports);
      var writes := if r.changed then [Write(f, r.data)] else [];
      assert visit == [Backup(f)] + ms + writes;
      forall data ensures Write(f, data) in visit <==> Write(f, data) in writes {
      }
    } else {
      assert visit == [NotOriginal(f)];
    }
  }

  /** An event about `f`, where nothing before or after a visit is about
      `f`, occurs in the run exactly when it occurs in the visit. */
  lemma OnlyInVisit(before: seq<Event>, visit: seq<Event>, after: seq<Event>, f: string, e: Event)
    requires forall x :: x in before ==> !About(x, f)
    requires forall x :: x in after ==> !About(x, f)
    requires About(e, f)
    ensures e in before + visit + after <==> e in visit
  {
  }

  /** Every known file present at the start is still present at the end. */
  lemma KnownFilesStay(fixes: seq<Fix>, sums: seq<(string, string)>, checksum: seq<Byte> -> string, fs: FileSystem)
    requires Independent(sums)
    requires forall j :: 0 <= j < |sums| ==> sums[j].0 in fs
    ensures forall j :: 0 <= j < |sums| ==> sums[j].0 in RunAll(fixes, sums, checksum, fs).fs
  {
    forall j | 0 <= j < |sums| ensures sums[j].0 in RunAll(fixes, sums, checksum, fs).fs {
      FileFate(fixes, sums, checksum, fs, j);
    }
  }

  /** On a second run, a known file well ordered in the patch table is not
      written and keeps the contents the first run left. */
  lemma SecondVisit(fixes: seq<Fix>, sums: seq<(string, string)>, checksum: seq<Byte> -> string, fs: FileSystem, j: nat)
    requires Independent(sums) && j < |sums|
    requires forall i :: 0 <= i < |sums| ==> sums[i].0 in fs
    requires WellOrdered(sums[j].0, fixes)
    ensures var first := RunAll(fixes, sums, checksum, fs);
      var second, f := RunAll(fixes, sums, checksum, first.fs), sums[j].0;
      && f in first.fs && f in second.fs && second.fs[f] == first.fs[f]
      && forall data :: Write(f, data) !in second.events
  {
    var first := RunAll(fixes, sums, checksum, fs);
    var f := sums[j].0;
    KnownFilesStay(fixes, sums, checksum, fs);
    FileFate(fixes, sums, checksum, fs, j);
    FileFate(fixes, sums, checksum, first.fs, j);
    FileEvents(fixes, sums, checksum, first.fs, j);
    PassIdempotent(f, fixes, fs[f]);
    ChangedIffSpliced(f, fixes, fs[f], |fixes|);
  }

  /** Running the fixer a second time on the directory the first run left
      behind writes nothing and leaves every known file as it is: a file
      patched by the first run either fails the checksum now, or its pass
      finds every patch settled. */
  lemma RunTwice(fixes: seq<Fix>, sums: seq<(string, string)>, checksum: seq<Byte> -> string, fs: FileSystem)
    requires Independent(sums)
    requires forall j :: 0 <= j < |sums| ==> sums[j].0 in fs && WellOrdered(sums[j].0, fixes)
    ensures var first := RunAll(fixes, sums, checksum, fs);
      var second := RunAll(fixes, sums, checksum, first.fs);
      && (forall e :: e in second.events ==> !e.Write?)
      && forall j :: 0 <= j < |sums| ==>
           sums[j].0 in first.fs && sums[j].0 in second.fs && second.fs[sums[j].0] == first.fs[sums[j].0]
  {
    var first := RunAll(fixes, sums, checksum, fs);
    var second := RunAll(fixes, sums, checksum, first.fs);
    forall j | 0 <= j < |sums|
      ensures sums[j].0 in first.fs && sums[j].0 in second.fs && second.fs[sums[j].0] == first.fs[sums[j].0]
      ensures forall data :: Write(sums[j].0, data) !in second.events
    {
      SecondVisit(fixes, sums, checksum, fs, j);
    }
    NewEventsAbout(fixes, sums, checksum, first.fs, 0, |sums|);
    AllPresentNoExit(fixes, sums, checksum, first.fs);
    forall e | e in second.events ensures !e.Write? {
      var p :| 0 <= p < |second.events| && second.events[p] == e;
      var j :| 0 <= j < |sums| && About(e, sums[j].0);
      assert forall data :: Write(sums[j].0, data) !in second.events;
    }
  }

  /** When the digest cannot tell a patched file from the original, the
      second run backs the patched file up again: `orig-F` then holds the
      patched bytes, and the original is lost. */
  lemma SecondRunOverwritesBackup()
    ensures var fixes, sums := [Fix("F", 0, [1], [2])], [("F", "s")];
      var checksum := (d: seq<Byte>) => "s";
      var first := RunAll(fixes, sums, checksum, map["F" := [1]]);
      var second := RunAll(fixes, sums, checksum, first.fs);
      && OrigName("F") in first.fs && first.fs[OrigName("F")] == [1]
      && OrigName("F") in second.fs && second.fs[OrigName("F")] == [2]
      && Backup("F") in second.events
  {
    var p := Fix("F", 0, [1], [2]);
    var fixes, sums := [p], [("F", "s")];
    var checksum := (d: seq<Byte>) => "s";
    assert Slice([1], 0, 1) == [1] && Slice([2], 0, 1) == [2];
    assert Decide([1], p) == Applied && Splice([1], p) == [2];
    assert Decide([2], p) == AlreadyApplied;
    assert PassUpTo("F", fixes, [1], 1) == PassState([2], true, [Report(0, Applied)]);
    assert PassUpTo("F", fixes, [2], 1) == PassState([2], false, [Report(0, AlreadyApplied)]);
    var fs0 := map["F" := [1]];
    var first := RunAll(fixes, sums, checksum, fs0);
    RunStep(fixes, sums, checksum, fs0, 1);
    assert first == Visit(fixes, sums[0], checksum, RunState(fs0, [], false));
    assert first.fs == fs0[OrigName("F") := [1]]["F" := [2]];
    var second := RunAll(fixes, sums, checksum, first.fs);
    RunStep(fixes, sums, checksum, first.fs, 1);
    assert second == Visit(fixes, sums[0], checksum, RunState(first.fs, [], false));
    assert second.fs == first.fs[OrigName("F") := [2]];
    OrigNameInjective("F", "F");
  }

  /** The digest tells a patched file from the original: every known file
      whose digest matched and whose pass spliced something in has another
      digest afterwards. */
  predicate DigestSeesPatch(fixes: seq<Fix>, sums: seq<(string, string)>, checksum: seq<Byte> -> string, fs: FileSystem) {
    forall j :: 0 <= j < |sums| && sums[j].0 in fs && checksum(fs[sums[j].0]) == sums[j].1 ==>
      var r := Pass(sums[j].0, fixes, fs[sums[j].0]);
      r.changed ==> checksum(r.data) != sums[j].1
  }

  /** On a second run, a known file keeps the contents the first run left. */
  lemma SecondRunKeepsFile(fixes: seq<Fix>, sums: seq<(string, string)>, checksum: seq<Byte> -> string, fs: FileSystem, j: nat)
    requires Independent(sums) && j < |sums|
    requires forall i :: 0 <= i < |sums| ==> sums[i].0 in fs
    requires DigestSeesPatch(fixes, sums, checksum, fs)
    ensures var first := RunAll(fixes, sums, checksum, fs);
      var second, f := RunAll(fixes, sums, checksum, first.fs), sums[j].0;
      && f in first.fs && f in second.fs && second.fs[f] == first.fs[f]
  {
    var first := RunAll(fixes, sums, checksum, fs);
    KnownFilesStay(fixes, sums, checksum, fs);
    FileFate(fixes, sums, checksum, fs, j);
    FileFate(fixes, sums, checksum, first.fs, j);
  }

  /** On a second run, the backup of a known file keeps what the first run
      left in it. */
  lemma SecondRunKeepsBackup(fixes: seq<Fix>, sums: seq<(string, string)>, checksum: seq<Byte> -> string, fs: FileSystem, j: nat)
    requires Independent(sums) && j < |sums|
    requires forall i :: 0 <= i < |sums| ==> sums[i].0 in fs
    requires DigestSeesPatch(fixes, sums, checksum, fs)
    ensures var first := RunAll(fixes, sums, checksum, fs);
      var second, g := RunAll(fixes, sums, checksum, first.fs), OrigName(sums[j].0);
      && (g in second.fs <==> g in first.fs)
      && (g in first.fs ==> second.fs[g] == first.fs[g])
  {
    var first := RunAll(fixes, sums, checksum, fs);
    KnownFilesStay(fixes, sums, checksum, fs);
    FileFate(fixes, sums, checksum, fs, j);
    FileFate(fixes, sums, checksum, first.fs, j);
  }

  /** When the digest tells a patched file from the original, a second run
      leaves the directory exactly as the first run left it: a patched file
      now fails the digest, and an unpatched one is backed up again with the
      same contents. */
  lemma RunTwiceSameDirectory(fixes: seq<Fix>, sums: seq<(string, string)>, checksum: seq<Byte> -> string, fs: FileSystem)
    requires Independent(sums)
    requires forall j :: 0 <= j < |sums| ==> sums[j].0 in fs
    requires DigestSeesPatch(fixes, sums, checksum, fs)
    ensures var first := RunAll(fixes, sums, checksum, fs);
      RunAll(fixes, sums, checksum, first.fs).fs == first.fs
  {
    var first := RunAll(fixes, sums, checksum, fs);
    var second := RunAll(fixes, sums, checksum, first.fs);
    forall x ensures (x in second.fs <==> x in first.fs) && (x in first.fs ==> second.fs[x] == first.fs[x]) {
      if exists j :: 0 <= j < |sums| && x == sums[j].0 {
        var j :| 0 <= j < |sums| && x == sums[j].0;
        SecondRunKeepsFile(fixes, sums, checksum, fs, j);
      } else if exists j :: 0 <= j < |sums| && x == OrigName(sums[j].0) {
        var j :| 0 <= j < |sums| && x == OrigName(sums[j].0);
        SecondRunKeepsBackup(fixes, sums, checksum, fs, j);
      } else {
        assert Untouched(sums, 0, |sums|, x);
        Frame(fixes, sums, checksum, first.fs, 0, |sums|, x);
      }
    }
  }
}
