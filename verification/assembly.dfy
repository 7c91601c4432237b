/**
 * The end of a run (lib.js `buildElevationProfile`): the output-name rule
 * and the completion counter that starts the single merge, removes the
 * working directory and calls back. Each per-tile conversion command
 * reports back as an event, in whatever order the commands finish.
 */
module Assembly {
  import opened Text

  // ---------------------------------------------------------------------
  // The output name

  /**
   * The extension rule as lib.js writes it:
   * `if (-1 == out_file.indexOf(".tif") || -1 == out_file.indexOf(".tiff")) out_file += ".tif"`.
   */
  function OutFileAsWritten(outFile: string): string {
    if IndexOf(outFile, ".tif") == -1 || IndexOf(outFile, ".tiff") == -1 then outFile + ".tif" else outFile
  }

  /** A name holding `.tiff` also holds `.tif`. */
  lemma TiffHoldsTif(s: string)
    requires Contains(s, ".tiff")
    ensures Contains(s, ".tif")
  {
    var i :| OccursAt(s, ".tiff", i);
    assert s[i..i + 4] == s[i..i + 5][..4];
    assert OccursAt(s, ".tif", i);
  }

  /**
   * As written, `.tif` is appended unless the name already holds `.tiff`:
   * a name ending in `.tif` gets a second extension.
   */
  lemma OutFileAsWrittenRule(outFile: string)
    ensures Contains(outFile, ".tiff") ==> OutFileAsWritten(outFile) == outFile
    ensures !Contains(outFile, ".tiff") ==> OutFileAsWritten(outFile) == outFile + ".tif"
  {
    if Contains(outFile, ".tiff") {
      TiffHoldsTif(outFile);
    }
  }

  /** The three cases of the rule: `a` and `a.tif` gain `.tif`, `a.tiff` is kept. */
  lemma OutFileAsWrittenExamples()
    ensures OutFileAsWritten("a") == "a.tif"
    ensures OutFileAsWritten("a.tif") == "a.tif.tif"
    ensures OutFileAsWritten("a.tiff") == "a.tiff"
  {
    PlainGainsTif();
    TifGainsTif();
    TiffFound();
  }

  lemma PlainGainsTif()
    ensures OutFileAsWritten("a") == "a.tif"
  {
    IndexOfAbsent("a", ".tif");
    assert "a" + ".tif" == "a.tif";
  }

  lemma TifGainsTif()
    ensures OutFileAsWritten("a.tif") == "a.tif.tif"
  {
    NoTiffInTif();
    assert "a.tif" + ".tif" == "a.tif.tif";
  }

  /** `a.tif` does not hold `.tiff`: it is as long as the pattern and starts differently. */
  lemma NoTiffInTif()
    ensures IndexOf("a.tif", ".tiff") == -1
  {
    forall i ensures !OccursAt("a.tif", ".tiff", i) {
      if 0 <= i && i + 5 <= 5 {
        assert "a.tif"[0] != '.';
      }
    }
  }

  /** `a.tiff` holds both `.tif` and `.tiff` right after its first character. */
  lemma TiffFound()
    ensures IndexOf("a.tiff", ".tif") == 1 && IndexOf("a.tiff", ".tiff") == 1
  {
    IndexOfSplit("a", ".tiff", "");
    assert "a" + ".tiff" + "" == "a.tiff";
    IndexOfSplit("a", ".tif", "f");
    assert "a" + ".tif" + "f" == "a.tiff";
  }

  /**
   * The rule as evidently intended: `.tif` is appended only when the name
   * holds neither `.tif` nor `.tiff`.
   */
  function OutFile(outFile: string): string {
    if IndexOf(outFile, ".tif") == -1 && IndexOf(outFile, ".tiff") == -1 then outFile + ".tif" else outFile
  }

  /**
   * The corrected rule keeps any name holding `.tif` (so also `.tiff`),
   * extends every other, always yields a name holding `.tif`, and applying
   * it twice changes nothing more.
   */
  lemma OutFileRule(outFile: string)
    ensures Contains(outFile, ".tif") ==> OutFile(outFile) == outFile
    ensures !Contains(outFile, ".tif") ==> OutFile(outFile) == outFile + ".tif"
    ensures Contains(OutFile(outFile), ".tif")
    ensures OutFile(OutFile(outFile)) == OutFile(outFile)
  {
    if !Contains(outFile, ".tif") {
      if Contains(outFile, ".tiff") {
        TiffHoldsTif(outFile);
      }
      var r := outFile + ".tif";
      assert r[|outFile|..|outFile| + 4] == ".tif";
      assert OccursAt(r, ".tif", |outFile|);
    }
  }

  // ---------------------------------------------------------------------
  // Completion counter and merge

  /** The exit of one per-tile conversion command (sort + gdal_translate). */
  datatype Conversion = Conversion(tile: nat, exitOk: bool)

  /** What the end of the run does, in order. */
  datatype Action =
    | Counted(count: nat)          // `c++` in a conversion callback
    | MergeStarted(target: string) // the `gdalwarp` merge is launched
    | MergeExited(ok: bool)        // its callback runs (a failure is only logged)
    | DirectoryDeleted             // `deleteFolderRecursive(dir)`
    | Finished                     // `callback()`, with no error argument

  /**
   * The conversion callbacks from count `c` on: each bumps the counter, and
   * the one that brings it to `total` launches the merge.
   */
  function CountFrom(c: nat, total: nat, conversions: seq<Conversion>, target: string): seq<Action>
    decreases |conversions|
  {
    if |conversions| == 0 then []
    else
      [Counted(c + 1)] + (if c + 1 == total then [MergeStarted(target)] else []) +
      CountFrom(c + 1, total, conversions[1..], target)
  }

  /** Whether the counter reaches the number of tiles. */
  predicate MergeDue(total: nat, conversions: seq<Conversion>) {
    1 <= total <= |conversions|
  }

  /**
   * The whole end of a run, merging into `target`: the conversion callbacks
   * in arrival order, and, once the merge was launched, its exit, the
   * directory removal and the final callback.
   */
  function AssembleInto(total: nat, conversions: seq<Conversion>, mergeOk: bool, target: string): seq<Action> {
    CountFrom(0, total, conversions, target) +
    (if MergeDue(total, conversions) then [MergeExited(mergeOk), DirectoryDeleted, Finished] else [])
  }

  /**
   * The end of a run as lib.js performs it: `outFile` is the caller's name,
   * and the merge writes to whatever the extension rule as written makes of it.
   */
  function Assemble(total: nat, conversions: seq<Conversion>, mergeOk: bool, outFile: string): seq<Action> {
    AssembleInto(total, conversions, mergeOk, OutFileAsWritten(outFile))
  }

  /** The end of a run with the corrected extension rule. */
  function AssembleCorrected(total: nat, conversions: seq<Conversion>, mergeOk: bool, outFile: string): seq<Action> {
    AssembleInto(total, conversions, mergeOk, OutFile(outFile))
  }

  /** The kinds of action a trace is searched for. */
  datatype Kind = CountKind | MergeStartKind | DeleteKind | FinishKind

  predicate IsKind(a: Action, kind: Kind) {
    match kind
    case CountKind => a.Counted?
    case MergeStartKind => a.MergeStarted?
    case DeleteKind => a.DirectoryDeleted?
    case FinishKind => a.Finished?
  }

  /** The number of actions of one kind in a trace. */
  function CountOf(trace: seq<Action>, kind: Kind): nat {
    if |trace| == 0 then 0 else (if IsKind(trace[0], kind) then 1 else 0) + CountOf(trace[1..], kind)
  }

  lemma {:induction false} CountOfAppend(a: seq<Action>, b: seq<Action>, kind: Kind)
    ensures CountOf(a + b, kind) == CountOf(a, kind) + CountOf(b, kind)
  {
    if |a| == 0 {
      assert a + b == b;
    } else {
      assert (a + b)[0] == a[0];
      assert (a + b)[1..] == a[1..] + b;
      CountOfAppend(a[1..], b, kind);
    }
  }

  /**
   * The counter rises once per conversion callback, failed or not, and the
   * merge is launched once when it reaches `total` (never if it does not).
   */
  lemma {:induction false} CountFromCounts(c: nat, total: nat, conversions: seq<Conversion>, target: string)
    ensures CountOf(CountFrom(c, total, conversions, target), CountKind) == |conversions|
    ensures CountOf(CountFrom(c, total, conversions, target), MergeStartKind)
         == (if c < total <= c + |conversions| then 1 else 0)
    ensures forall k :: 0 <= k < |CountFrom(c, total, conversions, target)| ==>
              CountFrom(c, total, conversions, target)[k].Counted? || CountFrom(c, total, conversions, target)[k] == MergeStarted(target)
    decreases |conversions|
  {
    if |conversions| > 0 {
      var head := [Counted(c + 1)] + (if c + 1 == total then [MergeStarted(target)] else []);
      var rest := CountFrom(c + 1, total, conversions[1..], target);
      CountFromCounts(c + 1, total, conversions[1..], target);
      CountOfAppend(head, rest, CountKind);
      CountOfAppend(head, rest, MergeStartKind);
      assert head[1..] == (if c + 1 == total then [MergeStarted(target)] else []);
      if c + 1 == total {
        assert head[1..][1..] == [];
      }
    }
  }

  /**
   * The merge starts exactly once, right after the callback that brings
   * the counter to `total`, and only if that many callbacks arrive.
   */
  lemma {:induction false} MergeFollowsLastCount(c: nat, total: nat, conversions: seq<Conversion>, target: string, k: nat)
    requires k < |CountFrom(c, total, conversions, target)|
    ensures var t := CountFrom(c, total, conversions, target);
            t[k].MergeStarted? ==> k > 0 && t[k - 1] == Counted(total)
    decreases |conversions|
  {
    var t := CountFrom(c, total, conversions, target);
    var head := [Counted(c + 1)] + (if c + 1 == total then [MergeStarted(target)] else []);
    if k >= |head| {
      var rest := CountFrom(c + 1, total, conversions[1..], target);
      MergeFollowsLastCount(c + 1, total, conversions[1..], target, k - |head|);
      assert t[k] == rest[k - |head|];
      if k - |head| > 0 {
        assert t[k - 1] == rest[k - |head| - 1];
      } else {
        assert rest[0] == Counted(c + 2);
      }
    }
  }

  /**
   * Exactly one merge, one directory removal and one final callback when
   * every tile was counted; none of them otherwise. Every merge writes to
   * `target`. The trace ends with the merge's exit, the removal and the
   * final callback, in that order; the callback carries no error even when
   * the merge failed.
   */
  lemma RunCompletesOnce(total: nat, conversions: seq<Conversion>, mergeOk: bool, target: string)
    ensures var t := AssembleInto(total, conversions, mergeOk, target);
            CountOf(t, MergeStartKind) == (if MergeDue(total, conversions) then 1 else 0)
    ensures var t := AssembleInto(total, conversions, mergeOk, target);
            forall k :: 0 <= k < |t| && t[k].MergeStarted? ==> t[k].target == target
    ensures var t := AssembleInto(total, conversions, mergeOk, target);
            MergeDue(total, conversions) ==> MergeStarted(target) in t
    ensures var t := AssembleInto(total, conversions, mergeOk, target);
            CountOf(t, DeleteKind) == (if MergeDue(total, conversions) then 1 else 0)
    ensures var t := AssembleInto(total, conversions, mergeOk, target);
            CountOf(t, FinishKind) == (if MergeDue(total, conversions) then 1 else 0)
    ensures var t := AssembleInto(total, conversions, mergeOk, target);
            MergeDue(total, conversions) ==>
              && |t| >= 3
              && t[|t| - 3] == MergeExited(mergeOk)
              && t[|t| - 2] == DirectoryDeleted
              && t[|t| - 1] == Finished
    ensures var t := AssembleInto(total, conversions, mergeOk, target);
            CountOf(t, CountKind) == |conversions|
  {
    var counting := CountFrom(0, total, conversions, target);
    CountFromCounts(0, total, conversions, target);
    if MergeDue(total, conversions) {
      TraceWhenDue(counting, mergeOk, target);
    } else {
      assert AssembleInto(total, conversions, mergeOk, target) == counting;
      CountOfNone(counting, target);
    }
  }

  /**
   * The counting part followed by the merge's exit, the removal and the
   * final callback: one of each, after the one launch.
   */
  lemma TraceWhenDue(counting: seq<Action>, mergeOk: bool, target: string)
    requires forall k :: 0 <= k < |counting| ==> counting[k].Counted? || counting[k] == MergeStarted(target)
    requires CountOf(counting, MergeStartKind) == 1
    ensures var t := counting + [MergeExited(mergeOk), DirectoryDeleted, Finished];
            && CountOf(t, MergeStartKind) == 1 && CountOf(t, DeleteKind) == 1 && CountOf(t, FinishKind) == 1
            && CountOf(t, CountKind) == CountOf(counting, CountKind)
            && MergeStarted(target) in t
            && (forall k :: 0 <= k < |t| && t[k].MergeStarted? ==> t[k].target == target)
  {
    var tail := [MergeExited(mergeOk), DirectoryDeleted, Finished];
    var t := counting + tail;
    CountOfAppend(counting, tail, MergeStartKind);
    CountOfAppend(counting, tail, DeleteKind);
    CountOfAppend(counting, tail, FinishKind);
    CountOfAppend(counting, tail, CountKind);
    CountOfNone(counting, target);
    TailCounts(mergeOk);
    CountOfPositive(counting, MergeStartKind);
    var k :| 0 <= k < |counting| && IsKind(counting[k], MergeStartKind);
    assert t[k] == counting[k] == MergeStarted(target);
    forall j | 0 <= j < |t| && t[j].MergeStarted? ensures t[j].target == target {
      if j < |counting| {
        assert t[j] == counting[j];
      }
    }
  }

  /**
   * As written, a finished run merges into the caller's name with `.tif`
   * appended unless that name holds `.tiff`: a caller passing `<id>.tif`
   * gets `<id>.tif.tif`.
   */
  lemma AssembleMergeTarget(total: nat, conversions: seq<Conversion>, mergeOk: bool, outFile: string)
    requires MergeDue(total, conversions)
    ensures !Contains(outFile, ".tiff") ==> MergeStarted(outFile + ".tif") in Assemble(total, conversions, mergeOk, outFile)
    ensures Contains(outFile, ".tiff") ==> MergeStarted(outFile) in Assemble(total, conversions, mergeOk, outFile)
  {
    OutFileAsWrittenRule(outFile);
    RunCompletesOnce(total, conversions, mergeOk, OutFileAsWritten(outFile));
  }

  /** With the corrected rule a caller's name holding `.tif` is the merge target unchanged. */
  lemma AssembleCorrectedMergeTarget(total: nat, conversions: seq<Conversion>, mergeOk: bool, outFile: string)
    requires MergeDue(total, conversions)
    ensures Contains(outFile, ".tif") ==> MergeStarted(outFile) in AssembleCorrected(total, conversions, mergeOk, outFile)
    ensures !Contains(outFile, ".tif") ==> MergeStarted(outFile + ".tif") in AssembleCorrected(total, conversions, mergeOk, outFile)
  {
    OutFileRule(outFile);
    RunCompletesOnce(total, conversions, mergeOk, OutFile(outFile));
  }

  /** The actions after the merge: its exit, the removal and the final callback, once each. */
  lemma TailCounts(mergeOk: bool)
    ensures var tail := [MergeExited(mergeOk), DirectoryDeleted, Finished];
            && CountOf(tail, MergeStartKind) == 0 && CountOf(tail, CountKind) == 0
            && CountOf(tail, DeleteKind) == 1 && CountOf(tail, FinishKind) == 1
  {
    var tail := [MergeExited(mergeOk), DirectoryDeleted, Finished];
    assert tail[1..] == [DirectoryDeleted, Finished];
    assert tail[1..][1..] == [Finished];
    assert tail[1..][1..][1..] == [];
    forall kind ensures CountOf([Finished], kind) == (if kind == FinishKind then 1 else 0) {
      assert [Finished][1..] == [];
    }
    forall kind
      ensures CountOf([DirectoryDeleted, Finished], kind)
           == (if kind == DeleteKind then 1 else 0) + CountOf([Finished], kind)
    {
      assert [DirectoryDeleted, Finished][1..] == [Finished];
    }
  }

  /** A trace holding an action of some kind has one at some position. */
  lemma {:induction false} CountOfPositive(t: seq<Action>, kind: Kind)
    requires CountOf(t, kind) > 0
    ensures exists k :: 0 <= k < |t| && IsKind(t[k], kind)
  {
    if !IsKind(t[0], kind) {
      CountOfPositive(t[1..], kind);
      var k :| 0 <= k < |t[1..]| && IsKind(t[1..][k], kind);
      assert t[k + 1] == t[1..][k];
    }
  }

  /** Counting produces no removal and no final callback: only counts and the merge launch. */
  lemma {:induction false} CountOfNone(t: seq<Action>, target: string)
    requires forall k :: 0 <= k < |t| ==> t[k].Counted? || t[k] == MergeStarted(target)
    ensures CountOf(t, DeleteKind) == 0 && CountOf(t, FinishKind) == 0
  {
    if |t| > 0 {
      assert t[0].Counted? || t[0] == MergeStarted(target);
      CountOfNone(t[1..], target);
    }
  }

  /**
   * Only the number of callbacks matters: neither their order, nor which
   * tile they came from, nor whether the command failed changes the actions.
   */
  lemma {:induction false} AssembleOrderIndependent(total: nat, a: seq<Conversion>, b: seq<Conversion>, mergeOk: bool, outFile: string)
    requires |a| == |b|
    ensures Assemble(total, a, mergeOk, outFile) == Assemble(total, b, mergeOk, outFile)
  {
    CountFromLength(0, total, a, b, OutFileAsWritten(outFile));
  }

  lemma {:induction false} CountFromLength(c: nat, total: nat, a: seq<Conversion>, b: seq<Conversion>, target: string)
    requires |a| == |b|
    ensures CountFrom(c, total, a, target) == CountFrom(c, total, b, target)
    decreases |a|
  {
    if |a| > 0 {
      CountFromLength(c + 1, total, a[1..], b[1..], target);
    }
  }
}
