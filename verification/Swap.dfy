/** Putting a finished transcode in the place of its input: the two file moves of
    `OptimizationWorker._swap`, the handler around it, and the file names they use. */
module Swap {

  type Bytes = seq<nat>

  datatype Path = Path(directory: string, name: string)

  type Files = map<Path, Bytes>

  // ---- Names --------------------------------------------------------------------------

  /** The position of the last dot, or -1. */
  function LastDot(name: string): (i: int)
    ensures -1 <= i < |name|
    ensures i >= 0 ==> name[i] == '.'
    ensures forall k :: 0 <= k < |name| && i < k ==> name[k] != '.'
  {
    if name == [] then -1
    else if name[|name| - 1] == '.' then |name| - 1
    else LastDot(name[..|name| - 1])
  }

  /** Where `Path.suffix` begins: at the last dot, unless that is the first or last
      character. */
  function SuffixStart(name: string): (i: nat)
    ensures i <= |name|
  {
    var d := LastDot(name);
    if 0 < d < |name| - 1 then d else |name|
  }

  function Stem(name: string): string {
    name[..SuffixStart(name)]
  }

  function Suffix(name: string): string {
    name[SuffixStart(name)..]
  }

  function WithSuffix(p: Path, suffix: string): Path {
    p.(name := Stem(p.name) + suffix)
  }

  const SUPPORTED_CONTAINERS: set<string> := {"mkv", "mp4", "webm"}

  function TempPath(input: Path, container: string): Path {
    WithSuffix(input, ".auditarr.tmp." + container)
  }

  function BackupPath(input: Path): Path {
    WithSuffix(input, Suffix(input.name) + ".bak")
  }

  function FinalPath(input: Path, container: string): Path {
    WithSuffix(input, "." + container)
  }

  /** Whatever the input is called, its backup and its temporary output have names of their
      own; only the final name may be the input's. */
  lemma NamesDiffer(input: Path, container: string)
    requires container in SUPPORTED_CONTAINERS
    ensures var tmp, bak, fin := TempPath(input, container), BackupPath(input), FinalPath(input, container);
            tmp != input && bak != input && bak != tmp && fin != tmp && fin != bak
  {
    var n := input.name;
    var tmp, bak, fin := TempPath(input, container), BackupPath(input), FinalPath(input, container);
    assert n == Stem(n) + Suffix(n);
    assert bak.name[|bak.name| - 1] == 'k';
    assert tmp.name[|tmp.name| - 1] == container[|container| - 1] != 'k';
    assert fin.name[|fin.name| - 1] == container[|container| - 1];
    assert tmp.name[|Stem(n)| + 9] == '.';
    assert forall k :: |Stem(n)| < k < |n| ==> n[k] != '.';
  }

  lemma SuffixOf(stem: string, ext: string)
    requires stem != [] && ext != [] && '.' !in ext
    ensures Stem(stem + "." + ext) == stem && Suffix(stem + "." + ext) == "." + ext
  {
    var name := stem + "." + ext;
    assert name[|stem|] == '.' && forall k :: |stem| < k < |name| ==> name[k] == ext[k - |stem| - 1];
    assert LastDot(name) == |stem|;
    assert name[..|stem|] == stem && name[|stem|..] == "." + ext;
  }

  /** The names next to an input `stem.ext`. */
  lemma NamesOf(directory: string, stem: string, ext: string, container: string)
    requires stem != [] && ext != [] && '.' !in ext
    ensures var input := Path(directory, stem + "." + ext);
            && TempPath(input, container) == Path(directory, stem + ".auditarr.tmp." + container)
            && BackupPath(input) == Path(directory, stem + "." + ext + ".bak")
            && FinalPath(input, container) == Path(directory, stem + "." + container)
  {
    SuffixOf(stem, ext);
    hide Stem, Suffix;
    assert stem + ("." + ext + ".bak") == stem + "." + ext + ".bak";
    assert stem + ("." + container) == stem + "." + container;
    assert stem + (".auditarr.tmp." + container) == stem + ".auditarr.tmp." + container;
  }

  // ---- The disk -----------------------------------------------------------------------

  predicate Holds(files: Files, p: Path, bytes: Bytes) {
    p in files && files[p] == bytes
  }

  function Moved(files: Files, from: Path, to: Path): Files
    requires from in files
  {
    (files - {from})[to := files[from]]
  }

  /** Which of the operating-system calls fail. */
  datatype Faults = Faults(first: bool, second: bool, cleanup: bool)

  class Disk {
    var files: Files
    /** Every state the disk has been in, the present one last. */
    ghost var states: seq<Files>

    ghost predicate Valid()
      reads this
    {
      states != [] && states[|states| - 1] == files
    }

    constructor (files: Files)
      ensures Valid() && this.files == files && states == [files]
    {
      this.files := files;
      states := [files];
    }

    /** `os.replace`: atomic; fails without effect when the source is missing. */
    method Replace(from: Path, to: Path, fault: bool) returns (ok: bool)
      requires Valid()
      modifies this
      ensures Valid()
      ensures ok <==> from in old(files) && !fault
      ensures ok ==> files == Moved(old(files), from, to) && states == old(states) + [files]
      ensures !ok ==> files == old(files) && states == old(states)
    {
      ok := from in files && !fault;
      if ok {
        files := Moved(files, from, to);
        states := states + [files];
      }
    }

    /** `unlink`. */
    method Unlink(p: Path, fault: bool) returns (ok: bool)
      requires Valid()
      modifies this
      ensures Valid()
      ensures ok <==> p in old(files) && !fault
      ensures ok ==> files == old(files) - {p} && states == old(states) + [files]
      ensures !ok ==> files == old(files) && states == old(states)
    {
      ok := p in files && !fault;
      if ok {
        files := files - {p};
        states := states + [files];
      }
    }

    /** `_swap` inside the handler of `_run_claimed`. */
    method SwapIn(input: Path, container: string, keepBackup: bool, faults: Faults) returns (ok: bool)
      requires Valid() && container in SUPPORTED_CONTAINERS
      modifies this
      ensures Valid()
      ensures states == old(states) + Passage(old(files), input, container, keepBackup, faults)
      ensures ok <==> Succeeds(old(files), input, container, faults)
    {
      NamesDiffer(input, container);
      var tmp, backup, final := TempPath(input, container), BackupPath(input), FinalPath(input, container);
      hide TempPath, BackupPath, FinalPath;
      if keepBackup {
        ok := Replace(input, backup, faults.first);
      } else {
        ok := Unlink(input, faults.first);
      }
      if ok {
        ok := Replace(tmp, final, faults.second);
      }
      if !ok {
        var cleaned := Unlink(tmp, faults.cleanup);
      }
    }
  }

  // ---- What a swap passes through -----------------------------------------------------

  predicate Succeeds(files: Files, input: Path, container: string, faults: Faults) {
    input in files && TempPath(input, container) in files && !faults.first && !faults.second
  }

  /** The states after the one it starts in. */
  function Passage(files: Files, input: Path, container: string, keepBackup: bool, faults: Faults): seq<Files> {
    var tmp := TempPath(input, container);
    if input !in files || faults.first then
      if tmp in files && !faults.cleanup then [files - {tmp}] else []
    else
      var away := if keepBackup then Moved(files, input, BackupPath(input)) else files - {input};
      if tmp !in away then [away]
      else if !faults.second then [away, Moved(away, tmp, FinalPath(input, container))]
      else if !faults.cleanup then [away, away - {tmp}]
      else [away]
  }

  function Ending(files: Files, input: Path, container: string, keepBackup: bool, faults: Faults): Files {
    var on := Passage(files, input, container, keepBackup, faults);
    if on == [] then files else on[|on| - 1]
  }

  /** With a kept backup the original's bytes are at the input or the backup path in every
      state on the way, whichever calls fail. */
  lemma OriginalSurvives(files: Files, input: Path, container: string, faults: Faults, state: Files)
    requires container in SUPPORTED_CONTAINERS && input in files
    requires state in Passage(files, input, container, true, faults)
    ensures Holds(state, input, files[input]) || Holds(state, BackupPath(input), files[input])
  {
    NamesDiffer(input, container);
  }

  /** No state on the way differs outside the four paths. */
  lemma OnlyFourPathsChange(files: Files, input: Path, container: string, keepBackup: bool, faults: Faults,
                            state: Files, p: Path)
    requires container in SUPPORTED_CONTAINERS
    requires state in Passage(files, input, container, keepBackup, faults)
    requires p !in {input, BackupPath(input), TempPath(input, container), FinalPath(input, container)}
    ensures p in state <==> p in files
    ensures p in files ==> state[p] == files[p]
  {
    hide TempPath, BackupPath, FinalPath;
  }

  /** Success puts the new bytes at the final path, clears the temporary one, and leaves the
      original at the backup path or nowhere else. */
  lemma SuccessInstalls(files: Files, input: Path, container: string, keepBackup: bool, faults: Faults)
    requires container in SUPPORTED_CONTAINERS && Succeeds(files, input, container, faults)
    ensures var end := Ending(files, input, container, keepBackup, faults);
            && Holds(end, FinalPath(input, container), files[TempPath(input, container)])
            && TempPath(input, container) !in end
            && (keepBackup ==> Holds(end, BackupPath(input), files[input]))
            && (!keepBackup && BackupPath(input) in end ==> Holds(files, BackupPath(input), end[BackupPath(input)]))
            && (FinalPath(input, container) != input ==> input !in end)
  {
    NamesDiffer(input, container);
  }

  /** The module's promise that a failure leaves the original untouched holds exactly when it
      was the first call that failed: otherwise the input path is empty. */
  lemma UntouchedExactly(files: Files, input: Path, container: string, keepBackup: bool, faults: Faults)
    requires container in SUPPORTED_CONTAINERS && input in files
    requires !Succeeds(files, input, container, faults)
    ensures Holds(Ending(files, input, container, keepBackup, faults), input, files[input]) <==> faults.first
    ensures !faults.first ==> input !in Ending(files, input, container, keepBackup, faults)
  {
    NamesDiffer(input, container);
  }

  /** Neither the original at its path nor the new bytes at the temporary or final path. */
  predicate Neither(files: Files, input: Path, container: string, state: Files)
    requires input in files && TempPath(input, container) in files
  {
    && !Holds(state, input, files[input])
    && !Holds(state, TempPath(input, container), files[TempPath(input, container)])
    && !Holds(state, FinalPath(input, container), files[TempPath(input, container)])
  }

  /** Without a backup the claim that one of the files is always there fails in exactly one
      way: the original is deleted, the second move fails, and the handler deletes the new
      file too (unless another file with the same bytes already was at the final path). */
  lemma LostExactly(files: Files, input: Path, container: string, faults: Faults)
    requires container in SUPPORTED_CONTAINERS
    requires input in files && TempPath(input, container) in files
    ensures (exists state ::
               state in Passage(files, input, container, false, faults) && Neither(files, input, container, state))
            <==> !faults.first && faults.second && !faults.cleanup &&
                 (FinalPath(input, container) == input ||
                  !Holds(files, FinalPath(input, container), files[TempPath(input, container)]))
  {
    NamesDiffer(input, container);
    var on := Passage(files, input, container, false, faults);
    if !faults.first {
      assert on[0] in on && !Neither(files, input, container, on[0]);
      if |on| == 2 { assert on[1] in on; }
    }
  }
}
