/** The previewed changes: one entry per fixable issue, grouped by file. */
module DiffTypes {
  import opened Wrappers

  /** One issue's fix shown as a before/after line. */
  datatype DiffEntry = DiffEntry(
    line: nat,
    analyzer: string,
    original: string,
    modified: string,
    description: string,
    importStmt: Option<string>)

  datatype FileDiff = FileDiff(path: string, entries: seq<DiffEntry>)

  datatype DiffResult = DiffResult(files: seq<FileDiff>)

  /** `FileDiff::total_changes` */
  function TotalChanges(f: FileDiff): nat {
    |f.entries|
  }

  /** `FileDiff::new` */
  function NewFileDiff(path: string): (r: FileDiff)
    ensures r.path == path && TotalChanges(r) == 0
  {
    FileDiff(path, [])
  }

  /** `FileDiff::add_entry`: the entry goes last and nothing else changes. */
  function AddEntry(f: FileDiff, e: DiffEntry): (r: FileDiff)
    ensures r.path == f.path
    ensures TotalChanges(r) == TotalChanges(f) + 1
    ensures r.entries[..|f.entries|] == f.entries && r.entries[|f.entries|] == e
  {
    FileDiff(f.path, f.entries + [e])
  }

  /** `DiffResult::total_changes`: the entries of every file together. */
  function TotalChangesAll(files: seq<FileDiff>): nat {
    if files == [] then 0 else TotalChangesAll(files[..|files| - 1]) + TotalChanges(files[|files| - 1])
  }

  /** `DiffResult::total_files` */
  function TotalFiles(d: DiffResult): nat {
    |d.files|
  }

  /** The accumulate-or-drop invariant: no file without entries is kept. */
  predicate Valid(d: DiffResult) {
    forall k :: 0 <= k < |d.files| ==> TotalChanges(d.files[k]) > 0
  }

  /** `DiffResult::new` */
  function NewDiffResult(): (r: DiffResult)
    ensures Valid(r) && TotalFiles(r) == 0 && TotalChangesAll(r.files) == 0
  {
    DiffResult([])
  }

  /** `DiffResult::add_file`: a file with entries is appended, an empty one
      is dropped; either way the change count grows by the file's count. */
  function AddFile(d: DiffResult, f: FileDiff): (r: DiffResult)
    ensures TotalChanges(f) > 0 ==> r.files == d.files + [f]
    ensures TotalChanges(f) == 0 ==> r == d
    ensures TotalChangesAll(r.files) == TotalChangesAll(d.files) + TotalChanges(f)
    ensures Valid(d) ==> Valid(r)
  {
    if TotalChanges(f) > 0 then
      assert (d.files + [f])[..|d.files|] == d.files;
      DiffResult(d.files + [f])
    else d
  }

  /** Adding files one by one from an empty result. */
  function AddFiles(files: seq<FileDiff>): DiffResult {
    if files == [] then NewDiffResult() else AddFile(AddFiles(files[..|files| - 1]), files[|files| - 1])
  }

  /** The files kept, in order, are exactly the non-empty ones. */
  function NonEmpty(files: seq<FileDiff>): seq<FileDiff> {
    if files == [] then []
    else NonEmpty(files[..|files| - 1]) + (if TotalChanges(files[|files| - 1]) > 0 then [files[|files| - 1]] else [])
  }

  /** Building a result keeps exactly the non-empty files, in order. */
  lemma {:induction false} AddFilesKeepsNonEmpty(files: seq<FileDiff>)
    ensures AddFiles(files).files == NonEmpty(files)
  {
    if files != [] {
      AddFilesKeepsNonEmpty(files[..|files| - 1]);
    }
  }

  /** A built result is valid and counts every change of every input file,
      the dropped empty files contributing none. */
  lemma {:induction false} AddFilesCounts(files: seq<FileDiff>)
    ensures Valid(AddFiles(files))
    ensures TotalChangesAll(AddFiles(files).files) == TotalChangesAll(files)
  {
    if files != [] {
      AddFilesCounts(files[..|files| - 1]);
    }
  }

  /** With every file non-empty there are never more files than changes. */
  lemma {:induction false} FilesAtMostChanges(d: DiffResult)
    requires Valid(d)
    ensures TotalFiles(d) <= TotalChangesAll(d.files)
    decreases |d.files|
  {
    if d.files != [] {
      var init := DiffResult(d.files[..|d.files| - 1]);
      assert Valid(init) by {
        forall k | 0 <= k < |init.files|
          ensures TotalChanges(init.files[k]) > 0
        {
          assert init.files[k] == d.files[k];
        }
      }
      FilesAtMostChanges(init);
    }
  }

  /** Summing over a concatenation. */
  lemma {:induction false} TotalChangesAppend(a: seq<FileDiff>, b: seq<FileDiff>)
    ensures TotalChangesAll(a + b) == TotalChangesAll(a) + TotalChangesAll(b)
    decreases |b|
  {
    if b == [] {
      assert a + b == a;
    } else {
      assert (a + b)[..|a + b| - 1] == a + b[..|b| - 1];
      TotalChangesAppend(a, b[..|b| - 1]);
    }
  }
}
