/** Facts about the fixer's own two tables, and what the whole run does with
    them. */
module TableFacts {
  import opened Tables
  import opened Patch
  import opened FilePass
  import opened Driver

  /** `file` is one of the files the run visits. */
  predicate Known(sums: seq<(string, string)>, file: string) {
    exists j :: 0 <= j < |sums| && sums[j].0 == file
  }

  /** Every entry of the patch table names one of the known files, so each
      patch is attempted when its file is visited. */
  lemma FixesTargetKnownFiles()
    ensures forall i :: 0 <= i < |Fixes| ==> Known(Sums, Fixes[i].file)
  {
    assert Sums[0].0 == "CASTLE.TLK" && Sums[1].0 == "DWELLING.TLK";
    assert Sums[2].0 == "KEEP.TLK" && Sums[3].0 == "TOWNE.TLK";
  }

  /** The known file names are distinct and none is a backup name. */
  lemma SumsIndependent()
    ensures Independent(Sums)
  {
    forall i, j | 0 <= i < |Sums| && 0 <= j < |Sums| ensures Sums[i].0 != OrigName(Sums[j].0) {
      assert Sums[i].0[0] != 'o';
      OrigNameInjective(Sums[j].0, Sums[i].0);
    }
  }

  /** The patch table is well ordered for every file: each entry expects
      some bytes, and for each file the only length-changing entry (the
      second DWELLING.TLK patch, which grows the file by two bytes at offset
      0x1f0d) lies above every other entry for that file. */
  lemma FixesWellOrdered(file: string)
    ensures WellOrdered(file, Fixes)
  {
    forall i, j | 0 <= i < j < |Fixes| && Fixes[i].file == file && Fixes[j].file == file
      ensures Separated(Fixes[i], Fixes[j])
    {
      if i == 1 {
        assert j == 5;
      } else if i == 2 {
        assert j == 3 || j == 4;
      } else {
        assert i == 3 && j == 4;
      }
    }
  }

  /** The end-to-end example: in a directory holding all four original
      files, with TOWNE.TLK's checksum as expected and the byte 0xB4 at
      offset 0x06fd, the run leaves 0xB3 there, writes TOWNE.TLK back, keeps
      the original (with its 0xB4) as its backup, and does not halt. */
  lemma TowneHintPrice(fs: FileSystem, checksum: seq<Byte> -> string)
    requires "CASTLE.TLK" in fs && "DWELLING.TLK" in fs && "KEEP.TLK" in fs && "TOWNE.TLK" in fs
    requires checksum(fs["TOWNE.TLK"]) == "325f55a2f0b533ca53851296d538a1a6"
    requires |fs["TOWNE.TLK"]| > 0x06fd && fs["TOWNE.TLK"][0x06fd] == 0xB4
    ensures var st := RunAll(Fixes, Sums, checksum, fs);
      && !st.exited
      && "TOWNE.TLK" in st.fs && |st.fs["TOWNE.TLK"]| > 0x06fd && st.fs["TOWNE.TLK"][0x06fd] == 0xB3
      && OrigName("TOWNE.TLK") in st.fs && st.fs[OrigName("TOWNE.TLK")] == fs["TOWNE.TLK"]
      && Write("TOWNE.TLK", st.fs["TOWNE.TLK"]) in st.events
  {
    var f := "TOWNE.TLK";
    var d := fs[f];
    var p := Fixes[1];
    assert p == Fix(f, 0x06fd, [0xB4], [0xB3]);
    assert Sums[0].0 == "CASTLE.TLK" && Sums[1].0 == "DWELLING.TLK" && Sums[2].0 == "KEEP.TLK";
    assert Sums[3] == (f, "325f55a2f0b533ca53851296d538a1a6");
    assert forall j :: 0 <= j < |Sums| ==> Sums[j].0 in fs;
    SumsIndependent();
    FixesWellOrdered(f);
    FileFate(Fixes, Sums, checksum, fs, 3);
    FileEvents(Fixes, Sums, checksum, fs, 3);
    AllPresentNoExit(Fixes, Sums, checksum, fs);
    // The hint-price patch is found unapplied and spliced in ...
    assert d[p.offset + 0] == p.expected[0] != p.replacement[0];
    assert Decide(d, p) == Applied;
    // ... afterwards its replacement is in place ...
    var r := Pass(f, Fixes, d);
    SettledAfterPass(f, Fixes, d, |Fixes|);
    assert Decide(r.data, p) == AlreadyApplied;
    assert r.data[p.offset + 0] == p.replacement[0];
    // ... so the buffer differs from the one read, and is written back.
    ChangedIffSpliced(f, Fixes, d, |Fixes|);
    assert r.changed;
  }
}
