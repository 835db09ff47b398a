/** The pass over the patch table for one file whose checksum matched: every
    entry for that file is tried in table order on the buffer read from disk,
    the buffer is threaded from one entry to the next, and a flag records
    whether any entry was spliced in. */
module FilePass {
  import opened Tables
  import opened Patch

  /** The outcome of one table entry, with the entry's position in the whole
      table (the patch number the fixer prints). */
  datatype Report = Report(index: nat, outcome: Outcome)

  /** The variables the fixer's inner loop updates: the buffer, the
      `changed` flag, and the outcomes seen so far. */
  datatype PassState = PassState(data: seq<Byte>, changed: bool, reports: seq<Report>)

  /** The loop state once the first `k` entries of the table have been
      visited for `file`, starting from the buffer `data`. */
  function PassUpTo(file: string, fixes: seq<Fix>, data: seq<Byte>, k: nat): PassState
    requires k <= |fixes|
  {
    if k == 0 then PassState(data, false, [])
    else
      var s := PassUpTo(file, fixes, data, k - 1);
      var p := fixes[k - 1];
      if p.file != file then s
      else
        var r := ApplyFix(s.data, p);
        PassState(r.data, s.changed || r.outcome == Applied, s.reports + [Report(k - 1, r.outcome)])
  }

  /** The loop state after the whole table. */
  function Pass(file: string, fixes: seq<Fix>, data: seq<Byte>): PassState {
    PassUpTo(file, fixes, data, |fixes|)
  }

  /** The fixer's inner loop: skip entries for other files, test the
      replacement first, then the expected bytes, and splice on a match. */
  method PatchFile(file: string, fixes: seq<Fix>, original: seq<Byte>)
    returns (data: seq<Byte>, changed: bool, reports: seq<Report>)
    ensures PassState(data, changed, reports) == Pass(file, fixes, original)
  {
    data, changed, reports := original, false, [];
    for i := 0 to |fixes|
      invariant PassState(data, changed, reports) == PassUpTo(file, fixes, original, i)
    {
      var p := fixes[i];
      if p.file != file {
        continue;
      }
      ghost var r := ApplyFix(data, p);
      if Slice(data, p.offset, p.offset + |p.replacement|) == p.replacement {
        assert r == Patched(data, AlreadyApplied);
        reports := reports + [Report(i, AlreadyApplied)];
      } else if Slice(data, p.offset, p.offset + |p.expected|) != p.expected {
        assert r == Patched(data, Mismatch);
        reports := reports + [Report(i, Mismatch)];
      } else {
        assert r == Patched(Splice(data, p), Applied);
        data := Splice(data, p);
        changed := true;
        reports := reports + [Report(i, Applied)];
      }
    }
  }

  // ---------------------------------------------------------------------
  // Properties of any pass

  /** The positions, in table order, of the first `k` entries meant for `file`. */
  function EntriesFor(file: string, fixes: seq<Fix>, k: nat): seq<nat>
    requires k <= |fixes|
  {
    if k == 0 then []
    else if fixes[k - 1].file == file then EntriesFor(file, fixes, k - 1) + [k - 1]
    else EntriesFor(file, fixes, k - 1)
  }

  /** Every entry for the file gets exactly one outcome, in table order, and
      no other entry gets one: a mismatch skips only its own patch, and the
      later patches for the same file are still tried. */
  lemma {:induction false} EveryEntryTried(file: string, fixes: seq<Fix>, data: seq<Byte>, k: nat)
    requires k <= |fixes|
    ensures var s := PassUpTo(file, fixes, data, k);
      && |s.reports| == |EntriesFor(file, fixes, k)|
      && forall m :: 0 <= m < |s.reports| ==> s.reports[m].index == EntriesFor(file, fixes, k)[m]
  {
    if k > 0 {
      EveryEntryTried(file, fixes, data, k - 1);
    }
  }

  /** The flag is set exactly when some entry took the splice branch, and a
      pass in which no entry was spliced leaves the buffer as it was read. */
  lemma {:induction false} ChangedIffSpliced(file: string, fixes: seq<Fix>, data: seq<Byte>, k: nat)
    requires k <= |fixes|
    ensures var s := PassUpTo(file, fixes, data, k);
      && (s.changed <==> exists m :: 0 <= m < |s.reports| && s.reports[m].outcome == Applied)
      && (!s.changed ==> s.data == data)
  {
    if k > 0 {
      ChangedIffSpliced(file, fixes, data, k - 1);
      var s0 := PassUpTo(file, fixes, data, k - 1);
      var s := PassUpTo(file, fixes, data, k);
      if fixes[k - 1].file == file {
        assert forall m :: 0 <= m < |s0.reports| ==> s.reports[m] == s0.reports[m];
        if s.reports[|s0.reports|].outcome == Applied {
          assert s.changed;
        } else if s.changed {
          var m :| 0 <= m < |s0.reports| && s0.reports[m].outcome == Applied;
          assert s.reports[m].outcome == Applied;
        }
      }
    }
  }

  /** Entries for other files have no effect: two tables that agree on every
      entry either of them holds for `file` give the same pass over `file`. */
  lemma {:induction false} OtherFilesIgnored(file: string, fixes: seq<Fix>, others: seq<Fix>, data: seq<Byte>, k: nat)
    requires |fixes| == |others| && k <= |fixes|
    requires forall j :: 0 <= j < |fixes| && (fixes[j].file == file || others[j].file == file) ==>
      fixes[j] == others[j]
    ensures PassUpTo(file, fixes, data, k) == PassUpTo(file, others, data, k)
  {
    if k > 0 {
      OtherFilesIgnored(file, fixes, others, data, k - 1);
    }
  }

  // ---------------------------------------------------------------------
  // Passes over a well-ordered table

  /** Two entries for the same file, `a` before `b` in the table, do not
      interfere: their ranges are disjoint and the one at the higher offset
      is the only one that may change the length. */
  predicate Separated(a: Fix, b: Fix) {
    || (Below(b, a) && LengthPreserving(b))
    || (Below(a, b) && LengthPreserving(a))
  }

  /** The table's entries for `file` each expect some bytes and are pairwise
      separated. */
  predicate WellOrdered(file: string, fixes: seq<Fix>) {
    && (forall j :: 0 <= j < |fixes| && fixes[j].file == file ==> |fixes[j].expected| > 0)
    && (forall i, j :: 0 <= i < j < |fixes| && fixes[i].file == file && fixes[j].file == file ==>
          Separated(fixes[i], fixes[j]))
  }

  /** The outcomes the first `k` entries for `file` would get if each were
      tested on the buffer `data` as it is. */
  function Verdicts(file: string, fixes: seq<Fix>, data: seq<Byte>, k: nat): seq<Report>
    requires k <= |fixes|
  {
    if k == 0 then []
    else if fixes[k - 1].file == file then
      Verdicts(file, fixes, data, k - 1) + [Report(k - 1, Decide(data, fixes[k - 1]))]
    else Verdicts(file, fixes, data, k - 1)
  }

  /** On a well-ordered table every entry is judged against the bytes read
      from disk: the patches before it have not touched the ranges it reads,
      so its offset is still valid. */
  lemma {:induction false} JudgedAgainstOriginal(file: string, fixes: seq<Fix>, data: seq<Byte>, k: nat)
    requires WellOrdered(file, fixes) && k <= |fixes|
    ensures PassUpTo(file, fixes, data, k).reports == Verdicts(file, fixes, data, k)
    ensures forall j :: k <= j < |fixes| && fixes[j].file == file ==>
      Windows(PassUpTo(file, fixes, data, k).data, fixes[j]) == Windows(data, fixes[j])
  {
    if k > 0 {
      JudgedAgainstOriginal(file, fixes, data, k - 1);
      var s := PassUpTo(file, fixes, data, k - 1);
      var p := fixes[k - 1];
      if p.file == file {
        DecideByWindows(s.data, data, p);
        forall j | k <= j < |fixes| && fixes[j].file == file
          ensures Windows(ApplyFix(s.data, p).data, fixes[j]) == Windows(data, fixes[j])
        {
          assert Separated(p, fixes[j]);
          if Below(fixes[j], p) && LengthPreserving(fixes[j]) {
            ApplyPreservesBelow(s.data, p, fixes[j]);
          } else {
            ApplyPreservesAbove(s.data, p, fixes[j]);
          }
        }
      }
    }
  }

  /** On a well-ordered table, applying entry `k - 1` leaves the outcome of
      every earlier entry for the file as it was. */
  lemma ApplyKeepsEarlier(file: string, fixes: seq<Fix>, data: seq<Byte>, k: nat)
    requires WellOrdered(file, fixes) && 0 < k <= |fixes| && fixes[k - 1].file == file
    ensures forall j :: 0 <= j < k - 1 && fixes[j].file == file ==>
      Decide(ApplyFix(data, fixes[k - 1]).data, fixes[j]) == Decide(data, fixes[j])
  {
    var p := fixes[k - 1];
    var after := ApplyFix(data, p).data;
    forall j | 0 <= j < k - 1 && fixes[j].file == file
      ensures Decide(after, fixes[j]) == Decide(data, fixes[j])
    {
      assert Separated(fixes[j], p);
      if Below(p, fixes[j]) && LengthPreserving(p) {
        ApplyPreservesAbove(data, p, fixes[j]);
      } else {
        ApplyPreservesBelow(data, p, fixes[j]);
      }
      DecideByWindows(after, data, fixes[j]);
    }
  }

  /** One step of SettledAfterPass over plain buffers: if the entries before
      `k - 1` are settled in `current` and entry `k - 1` sees the same bytes
      as in `data`, then after applying entry `k - 1` all `k` are settled. */
  lemma SettledStep(file: string, fixes: seq<Fix>, data: seq<Byte>, current: seq<Byte>, k: nat)
    requires WellOrdered(file, fixes) && 0 < k <= |fixes| && fixes[k - 1].file == file
    requires forall j :: 0 <= j < k - 1 && fixes[j].file == file ==>
      Decide(current, fixes[j]) == Settle(Decide(data, fixes[j]))
    requires Windows(current, fixes[k - 1]) == Windows(data, fixes[k - 1])
    ensures forall j :: 0 <= j < k && fixes[j].file == file ==>
      Decide(ApplyFix(current, fixes[k - 1]).data, fixes[j]) == Settle(Decide(data, fixes[j]))
  {
    var p := fixes[k - 1];
    DecideByWindows(current, data, p);
    ApplyThenSettled(current, p);
    ApplyKeepsEarlier(file, fixes, current, k);
  }

  /** On a well-ordered table, after the first `k` entries every one of them
      is settled in the buffer: an entry spliced in or already present is
      found already applied, and a mismatching one still mismatches. */
  lemma {:induction false} SettledAfterPass(file: string, fixes: seq<Fix>, data: seq<Byte>, k: nat)
    requires WellOrdered(file, fixes) && k <= |fixes|
    ensures forall j :: 0 <= j < k && fixes[j].file == file ==>
      Decide(PassUpTo(file, fixes, data, k).data, fixes[j]) == Settle(Decide(data, fixes[j]))
  {
    if k > 0 {
      SettledAfterPass(file, fixes, data, k - 1);
      var s := PassUpTo(file, fixes, data, k - 1);
      if fixes[k - 1].file == file {
        JudgedAgainstOriginal(file, fixes, data, k - 1);
        assert PassUpTo(file, fixes, data, k).data == ApplyFix(s.data, fixes[k - 1]).data;
        SettledStep(file, fixes, data, s.data, k);
      } else {
        assert PassUpTo(file, fixes, data, k) == s;
      }
    }
  }

  /** A pass over a buffer on which no entry for the file would be spliced
      changes nothing and reports each entry's outcome on that buffer. */
  lemma {:induction false} QuietPass(file: string, fixes: seq<Fix>, data: seq<Byte>, k: nat)
    requires k <= |fixes|
    requires forall j :: 0 <= j < k && fixes[j].file == file ==> Decide(data, fixes[j]) != Applied
    ensures PassUpTo(file, fixes, data, k) == PassState(data, false, Verdicts(file, fixes, data, k))
  {
    if k > 0 {
      QuietPass(file, fixes, data, k - 1);
    }
  }

  /** The outcomes of a second visit, given those of the first. */
  function SettleAll(reports: seq<Report>): (r: seq<Report>)
    ensures |r| == |reports|
    ensures forall m :: 0 <= m < |r| ==>
      r[m].index == reports[m].index && r[m].outcome == Settle(reports[m].outcome)
  {
    seq(|reports|, m requires 0 <= m < |reports| => Report(reports[m].index, Settle(reports[m].outcome)))
  }

  /** Verdicts on a buffer where every entry is settled are the settled
      verdicts on the original buffer. */
  lemma {:induction false} VerdictsSettled(file: string, fixes: seq<Fix>, before: seq<Byte>, after: seq<Byte>, k: nat)
    requires k <= |fixes|
    requires forall j :: 0 <= j < k && fixes[j].file == file ==>
      Decide(after, fixes[j]) == Settle(Decide(before, fixes[j]))
    ensures Verdicts(file, fixes, after, k) == SettleAll(Verdicts(file, fixes, before, k))
  {
    if k > 0 {
      VerdictsSettled(file, fixes, before, after, k - 1);
    }
  }

  /** Running the pass again on its own result is a no-op: nothing is
      spliced, the buffer stays as it is, every entry that was spliced or
      already present is reported as already received, and every entry that
      mismatched mismatches again. */
  lemma PassIdempotent(file: string, fixes: seq<Fix>, data: seq<Byte>)
    requires WellOrdered(file, fixes)
    ensures var first := Pass(file, fixes, data);
      Pass(file, fixes, first.data) == PassState(first.data, false, SettleAll(first.reports))
  {
    var first := Pass(file, fixes, data);
    JudgedAgainstOriginal(file, fixes, data, |fixes|);
    SettledAfterPass(file, fixes, data, |fixes|);
    QuietPass(file, fixes, first.data, |fixes|);
    VerdictsSettled(file, fixes, data, first.data, |fixes|);
  }
}
