/** The decision the fixer takes for one patch on one in-memory file image,
    and the splice it performs: Python slices and concatenations over
    immutable `bytes`, as pure functions. */
module Patch {
  import opened Tables

  /** Python's `data[lo:hi]` for non-negative bounds: both bounds are clamped
      to the length of `data`, and a range that is empty after clamping gives
      the empty sequence. */
  function Slice(data: seq<Byte>, lo: nat, hi: nat): (s: seq<Byte>)
    ensures lo <= hi ==> |s| <= hi - lo
    ensures hi <= |data| && lo <= hi ==> |s| == hi - lo
    ensures forall k :: 0 <= k < |s| ==> lo + k < |data| && s[k] == data[lo + k]
    ensures lo <= |data| <= hi ==> s == data[lo..]
    ensures |data| <= lo ==> s == []
  {
    var start := if lo < |data| then lo else |data|;
    var stop := if hi < |data| then hi else |data|;
    if stop <= start then [] else data[start..stop]
  }

  /** Reference meaning of "the bytes `b` are present in `data` at `offset`":
      the empty sequence is present everywhere; otherwise every byte of `b`
      sits at its position inside the buffer. */
  predicate Occurs(data: seq<Byte>, offset: nat, b: seq<Byte>) {
    b == [] || (offset + |b| <= |data| && forall k :: 0 <= k < |b| ==> data[offset + k] == b[k])
  }

  /** Comparing a clamped slice with a byte string is exactly the test "the
      bytes are present at that offset": a range running past the end gives a
      shorter slice, which never equals a non-empty byte string. */
  lemma SliceMatches(data: seq<Byte>, offset: nat, b: seq<Byte>)
    ensures Slice(data, offset, offset + |b|) == b <==> Occurs(data, offset, b)
  {
    var s := Slice(data, offset, offset + |b|);
    if Occurs(data, offset, b) && b != [] {
      assert |s| == |b|;
      assert forall k :: 0 <= k < |b| ==> s[k] == b[k];
    }
  }

  /** What the fixer does with one patch. */
  datatype Outcome =
    | AlreadyApplied  // "already received patch N"
    | Mismatch        // "doesn't contain expected contents; won't apply patch N"
    | Applied         // spliced in silently

  /** The three-way test of one patch: the replacement is looked for first,
      and only when it is absent are the expected bytes looked for. */
  function Decide(data: seq<Byte>, p: Fix): (o: Outcome)
    ensures o == AlreadyApplied <==> Occurs(data, p.offset, p.replacement)
    ensures o == Mismatch <==>
      !Occurs(data, p.offset, p.replacement) && !Occurs(data, p.offset, p.expected)
    ensures o == Applied <==>
      !Occurs(data, p.offset, p.replacement) && Occurs(data, p.offset, p.expected)
  {
    SliceMatches(data, p.offset, p.replacement);
    SliceMatches(data, p.offset, p.expected);
    if Slice(data, p.offset, p.offset + |p.replacement|) == p.replacement then AlreadyApplied
    else if Slice(data, p.offset, p.offset + |p.expected|) != p.expected then Mismatch
    else Applied
  }

  /** `data[:offset] + replacement + data[offset + len(expected):]`. When the
      expected range lies inside the buffer, the bytes before it are kept, the
      replacement follows, and the rest of the buffer is shifted by the
      difference in length. When the offset lies past the end (only possible
      with nothing expected), Python's clamping appends the replacement. */
  function Splice(data: seq<Byte>, p: Fix): (r: seq<Byte>)
    ensures p.offset + |p.expected| <= |data| ==>
      && |r| == |data| - |p.expected| + |p.replacement|
      && r[..p.offset] == data[..p.offset]
      && r[p.offset..p.offset + |p.replacement|] == p.replacement
      && r[p.offset + |p.replacement|..] == data[p.offset + |p.expected|..]
    ensures p.offset > |data| ==> r == data + p.replacement
  {
    Slice(data, 0, p.offset) + p.replacement + Slice(data, p.offset + |p.expected|, |data|)
  }

  /** The buffer and outcome after one patch of the fixer's file. */
  datatype Patched = Patched(data: seq<Byte>, outcome: Outcome)

  /** One patch as the fixer applies it: the buffer is replaced only on the
      splice branch; on the other two branches it is left exactly as it was. */
  function ApplyFix(data: seq<Byte>, p: Fix): (r: Patched)
    ensures r.outcome == Decide(data, p)
    ensures r.outcome != Applied ==> r.data == data
    ensures r.outcome == Applied ==> r.data == Splice(data, p) && r.data != data
  {
    var o := Decide(data, p);
    if o == Applied then
      SpliceChanges(data, p);
      Patched(Splice(data, p), o)
    else Patched(data, o)
  }

  /** A splice always changes the buffer: either its length changes, or the
      replacement, absent before, is present afterwards. */
  lemma SpliceChanges(data: seq<Byte>, p: Fix)
    requires Decide(data, p) == Applied
    ensures Splice(data, p) != data
  {
    var r := Splice(data, p);
    if p.offset + |p.expected| <= |data| {
      if |r| == |data| {
        assert Occurs(r, p.offset, p.replacement);
      }
    } else {
      assert p.expected == [];
    }
  }

  /** Applying a patch a second time finds its replacement and changes
      nothing: the fixer is idempotent patch by patch, as long as the offset
      lies inside the buffer (always so when something is expected there). */
  lemma SpliceThenAlreadyApplied(data: seq<Byte>, p: Fix)
    requires Decide(data, p) == Applied
    requires p.offset <= |data|
    ensures Decide(Splice(data, p), p) == AlreadyApplied
    ensures ApplyFix(ApplyFix(data, p).data, p) == Patched(Splice(data, p), AlreadyApplied)
  {
    var r := Splice(data, p);
    assert p.offset + |p.expected| <= |data|;
    forall k | 0 <= k < |p.replacement| ensures r[p.offset + k] == p.replacement[k] {
      assert r[p.offset..p.offset + |p.replacement|][k] == r[p.offset + k];
    }
    assert Occurs(r, p.offset, p.replacement);
  }

  /** With nothing expected and an offset past the end, Python's clamping
      appends the replacement at the end of the buffer instead of at the
      offset, so a second visit does not find it and appends it again. No
      entry of the table expects nothing, so the fixer never meets this. */
  lemma AppendPastEndRepeats()
    ensures var p := Fix("F", 5, [], [1]);
      && Decide([], p) == Applied && Splice([], p) == [1]
      && Decide([1], p) == Applied && Splice([1], p) == [1, 1]
  {
    var p := Fix("F", 5, [], [1]);
    assert Slice([], 0, 5) == [] && Slice([], 5, 0) == [];
    assert Slice([1], 0, 5) == [1] && Slice([1], 5, 1) == [];
    assert Slice([], 5, 6) == [] && Slice([1], 5, 6) == [];
  }

  /** A patch that expects some bytes, or keeps the length, is only spliced
      where its expected range lies inside the buffer. */
  lemma AppliedInRange(data: seq<Byte>, p: Fix)
    requires Decide(data, p) == Applied
    requires |p.expected| > 0 || LengthPreserving(p)
    ensures p.offset + |p.expected| <= |data|
  {
  }

  // ---------------------------------------------------------------------
  // Patches that do not interfere

  /** The number of bytes a patch looks at from its offset. */
  function Width(p: Fix): nat {
    if |p.expected| < |p.replacement| then |p.replacement| else |p.expected|
  }

  /** Every byte `a` looks at lies before the first byte `b` looks at. */
  predicate Below(a: Fix, b: Fix) {
    a.offset + Width(a) <= b.offset
  }

  /** A patch that keeps the file's length. */
  predicate LengthPreserving(p: Fix) {
    |p.expected| == |p.replacement|
  }

  /** The two byte ranges the decision about `p` reads. */
  function Windows(data: seq<Byte>, p: Fix): (seq<Byte>, seq<Byte>) {
    (Slice(data, p.offset, p.offset + |p.replacement|), Slice(data, p.offset, p.offset + |p.expected|))
  }

  /** The decision about a patch depends on the buffer only through the two
      ranges it reads. */
  lemma DecideByWindows(d1: seq<Byte>, d2: seq<Byte>, p: Fix)
    requires Windows(d1, p) == Windows(d2, p)
    ensures Decide(d1, p) == Decide(d2, p)
  {
  }

  /** Two buffers that agree on their first `n` bytes give the same slice of
      any range ending at or before `n`. */
  lemma SlicePrefix(d1: seq<Byte>, d2: seq<Byte>, n: nat, lo: nat, hi: nat)
    requires n <= |d1| && n <= |d2| && d1[..n] == d2[..n]
    requires lo <= hi <= n
    ensures Slice(d1, lo, hi) == Slice(d2, lo, hi)
  {
    assert d1[lo..hi] == d1[..n][lo..hi];
    assert d2[lo..hi] == d2[..n][lo..hi];
  }

  /** Two buffers of equal length that agree from index `n` on give the same
      slice of any range starting at or after `n`. */
  lemma SliceSuffix(d1: seq<Byte>, d2: seq<Byte>, n: nat, lo: nat, hi: nat)
    requires |d1| == |d2| && n <= |d1| && d1[n..] == d2[n..]
    requires n <= lo <= hi
    ensures Slice(d1, lo, hi) == Slice(d2, lo, hi)
  {
    var s1, s2 := Slice(d1, lo, hi), Slice(d2, lo, hi);
    assert |s1| == |s2|;
    forall k | 0 <= k < |s1| ensures s1[k] == s2[k] {
      assert d1[lo + k] == d1[n..][lo + k - n];
    }
  }

  /** Two buffers of equal length that agree from index `n` on give the same
      windows for any patch at or after `n`. */
  lemma WindowsSuffix(d1: seq<Byte>, d2: seq<Byte>, n: nat, y: Fix)
    requires |d1| == |d2| && n <= |d1| && d1[n..] == d2[n..] && n <= y.offset
    ensures Windows(d1, y) == Windows(d2, y)
  {
    SliceSuffix(d1, d2, n, y.offset, y.offset + |y.replacement|);
    SliceSuffix(d1, d2, n, y.offset, y.offset + |y.expected|);
  }

  /** Applying `x` leaves the decision windows of a patch `y` lying wholly
      below it untouched, provided `x` expects at least one byte (so that a
      splice of `x` happens inside the buffer, after `y`'s range). */
  lemma ApplyPreservesBelow(data: seq<Byte>, x: Fix, y: Fix)
    requires Below(y, x) && |x.expected| > 0
    ensures Windows(ApplyFix(data, x).data, y) == Windows(data, y)
  {
    var r := ApplyFix(data, x);
    if r.outcome == Applied {
      AppliedInRange(data, x);
      SlicePrefix(r.data, data, x.offset, y.offset, y.offset + |y.replacement|);
      SlicePrefix(r.data, data, x.offset, y.offset, y.offset + |y.expected|);
    }
  }

  /** A length-preserving splice inside the buffer keeps the length and
      every byte after the replaced range. */
  lemma SpliceKeepsSuffix(data: seq<Byte>, x: Fix)
    requires x.offset + |x.expected| <= |data| && LengthPreserving(x)
    ensures |Splice(data, x)| == |data|
    ensures Splice(data, x)[x.offset + |x.replacement|..] == data[x.offset + |x.replacement|..]
  {
  }

  /** Applying a length-preserving `x` leaves the decision windows of a patch
      `y` lying wholly above it untouched. */
  lemma ApplyPreservesAbove(data: seq<Byte>, x: Fix, y: Fix)
    requires Below(x, y) && LengthPreserving(x)
    ensures Windows(ApplyFix(data, x).data, y) == Windows(data, y)
  {
    var a := ApplyFix(data, x).data;
    if a != data {
      AppliedInRange(data, x);
      var n := x.offset + |x.replacement|;
      SpliceKeepsSuffix(data, x);
      WindowsSuffix(a, data, n, y);
    }
  }

  /** The outcome a patch gets on a second visit, given the first one: an
      applied patch is found already applied; the others are found as before. */
  function Settle(o: Outcome): (s: Outcome)
    ensures s != Applied
    ensures o != Applied ==> s == o
  {
    if o == Applied then AlreadyApplied else o
  }

  /** After one patch, the decision about the same patch is the settled form
      of the first decision. */
  lemma ApplyThenSettled(data: seq<Byte>, p: Fix)
    requires |p.expected| > 0 || p.offset <= |data|
    ensures Decide(ApplyFix(data, p).data, p) == Settle(Decide(data, p))
  {
    if Decide(data, p) == Applied {
      SpliceThenAlreadyApplied(data, p);
    }
  }
}
