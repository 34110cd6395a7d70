/**
 * cleaner.py: walk a directory tree and rename every file whose name holds
 * characters outside the sanitizer's allow-set to its sanitized name. The
 * renames are modelled as the list of (old path, new path) pairs the walk
 * would issue, in walk order.
 */
module Cleaner {
  import opened Seqs
  import opened Sanitizer
  import Paths

  /** One triple of `os.walk`, without the sub-directory names the loop ignores. */
  datatype WalkStep = WalkStep(root: string, files: seq<string>)

  /** One `os.rename(original_path, new_path)`. */
  datatype Rename = Rename(source: string, target: string)

  /** The rename one file of directory `root` needs: none when its name is already clean. */
  function FileRename(root: string, filename: string): seq<Rename>
  {
    var sanitized := Sanitize(filename);
    if sanitized != filename then [Rename(Paths.Join(root, filename), Paths.Join(root, sanitized))] else []
  }

  function FileFn(root: string): string -> seq<Rename>
  {
    filename => FileRename(root, filename)
  }

  /** The renames of the files of one directory, in listing order. */
  function RenamesIn(root: string, files: seq<string>): seq<Rename>
  {
    FlatMap(files, FileFn(root))
  }

  function StepFn(): WalkStep -> seq<Rename>
  {
    (step: WalkStep) => RenamesIn(step.root, step.files)
  }

  /** The renames of a whole walk, in walk order. */
  function PlannedRenames(walk: seq<WalkStep>): seq<Rename>
  {
    FlatMap(walk, StepFn())
  }

  lemma RenamesInSnoc(root: string, files: seq<string>, j: nat)
    requires j < |files|
    ensures RenamesIn(root, files[..j + 1]) == RenamesIn(root, files[..j]) + FileRename(root, files[j])
  {
    assert files[..j + 1] == files[..j] + [files[j]];
    FlatMapSnoc(files[..j], files[j], FileFn(root));
  }

  lemma PlannedRenamesSnoc(walk: seq<WalkStep>, i: nat)
    requires i < |walk|
    ensures PlannedRenames(walk[..i + 1]) == PlannedRenames(walk[..i]) + RenamesIn(walk[i].root, walk[i].files)
  {
    assert walk[..i + 1] == walk[..i] + [walk[i]];
    FlatMapSnoc(walk[..i], walk[i], StepFn());
  }

  /**
   * `clean_filenames(directory)`, with `walk` standing for what `os.walk`
   * yields and the result for the renames issued, in order.
   */
  method CleanFilenames(walk: seq<WalkStep>) returns (renames: seq<Rename>)
    ensures renames == PlannedRenames(walk)
  {
    renames := [];
    for i := 0 to |walk|
      invariant renames == PlannedRenames(walk[..i])
    {
      var root, files := walk[i].root, walk[i].files;
      for j := 0 to |files|
        invariant renames == PlannedRenames(walk[..i]) + RenamesIn(root, files[..j])
      {
        var filename := files[j];
        var sanitized := Sanitize(filename);
        if sanitized != filename {
          renames := renames + [Rename(Paths.Join(root, filename), Paths.Join(root, sanitized))];
        }
        RenamesInSnoc(root, files, j);
      }
      assert files[..|files|] == files;
      PlannedRenamesSnoc(walk, i);
    }
    assert walk[..|walk|] == walk;
  }

  /** A file needs a rename exactly when its name is not clean. */
  lemma FileRenameNeeded(root: string, filename: string)
    ensures FileRename(root, filename) != [] <==> !IsClean(filename)
  {
    SanitizeFixedPoint(filename);
  }

  /**
   * A planned rename stays in the file's own directory and changes only
   * the name, to its clean form; it never renames a file onto itself.
   */
  lemma RenameShape(root: string, filename: string, r: Rename)
    requires Paths.Sep !in filename
    requires r in FileRename(root, filename)
    ensures r.source == Paths.Join(root, filename) && r.target == Paths.Join(root, Sanitize(filename))
    ensures Paths.Basename(r.source) == filename && Paths.Basename(r.target) == Sanitize(filename)
    ensures IsClean(Paths.Basename(r.target)) && !IsClean(Paths.Basename(r.source))
    ensures r.source != r.target
  {
    var sanitized := Sanitize(filename);
    assert sanitized != filename;
    assert r == Rename(Paths.Join(root, filename), Paths.Join(root, sanitized));
    SanitizedHasNoSeparator(filename);
    Paths.BasenameOfJoin(root, filename);
    Paths.BasenameOfJoin(root, sanitized);
    SanitizeFixedPoint(filename);
  }

  /** The renames of one directory: one per unclean file, and only for those. */
  lemma RenamesInMember(root: string, files: seq<string>, r: Rename)
    ensures r in RenamesIn(root, files) <==>
      exists j :: 0 <= j < |files| && !IsClean(files[j])
        && r == Rename(Paths.Join(root, files[j]), Paths.Join(root, Sanitize(files[j])))
  {
    FlatMapMember(files, FileFn(root), r);
    forall j | 0 <= j < |files|
      ensures r in FileFn(root)(files[j])
        <==> !IsClean(files[j]) && r == Rename(Paths.Join(root, files[j]), Paths.Join(root, Sanitize(files[j])))
    {
      SanitizeFixedPoint(files[j]);
    }
  }

  /** A rename is planned exactly for each unclean file of each walked directory. */
  lemma PlannedRenamesMember(walk: seq<WalkStep>, r: Rename)
    ensures r in PlannedRenames(walk) <==>
      exists i, j :: 0 <= i < |walk| && 0 <= j < |walk[i].files| && !IsClean(walk[i].files[j])
        && r == Rename(Paths.Join(walk[i].root, walk[i].files[j]), Paths.Join(walk[i].root, Sanitize(walk[i].files[j])))
  {
    FlatMapMember(walk, StepFn(), r);
    forall i | 0 <= i < |walk|
      ensures r in StepFn()(walk[i]) <==> r in RenamesIn(walk[i].root, walk[i].files)
    {
    }
    forall i | 0 <= i < |walk| {
      RenamesInMember(walk[i].root, walk[i].files, r);
    }
  }

  /** Nothing is renamed exactly when every walked name is already clean. */
  lemma NoRenamesWhenClean(walk: seq<WalkStep>)
    ensures PlannedRenames(walk) == [] <==>
      forall i, j :: 0 <= i < |walk| && 0 <= j < |walk[i].files| ==> IsClean(walk[i].files[j])
  {
    forall i | 0 <= i < |walk|
      ensures StepFn()(walk[i]) == [] <==> forall j :: 0 <= j < |walk[i].files| ==> IsClean(walk[i].files[j])
    {
      var files := walk[i].files;
      FlatMapEmpty(files, FileFn(walk[i].root));
      forall j | 0 <= j < |files| {
        FileRenameNeeded(walk[i].root, files[j]);
      }
    }
    FlatMapEmpty(walk, StepFn());
  }

  /** The tree after the renames: every file under its sanitized name. */
  function Applied(walk: seq<WalkStep>): (after: seq<WalkStep>)
    ensures |after| == |walk|
    ensures forall i :: 0 <= i < |walk| ==> after[i].root == walk[i].root && |after[i].files| == |walk[i].files|
  {
    seq(|walk|, i requires 0 <= i < |walk| =>
      WalkStep(walk[i].root, seq(|walk[i].files|, j requires 0 <= j < |walk[i].files| => Sanitize(walk[i].files[j]))))
  }

  /** Running the cleaner again after its renames plans nothing: sanitizing is idempotent. */
  lemma CleanAfterApply(walk: seq<WalkStep>)
    ensures PlannedRenames(Applied(walk)) == []
  {
    var after := Applied(walk);
    forall i, j | 0 <= i < |after| && 0 <= j < |after[i].files| ensures IsClean(after[i].files[j]) {
      assert after[i].files[j] == Sanitize(walk[i].files[j]);
    }
    NoRenamesWhenClean(after);
  }
}
