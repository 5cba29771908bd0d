/** list/list.go: filtering file names by extension, the text of the list
    file, and the listing of a directory tree. */
module FileList {
  import opened Wrappers
  import opened Text
  import opened GoPath

  // ---------------------------------------------------------------------
  // FilterExt

  /** One copy of `name` for each element of `exts` equal to its extension,
      in the order of `exts`. */
  function Matches(exts: seq<string>, name: string): seq<string>
  {
    if exts == [] then []
    else Matches(exts[..|exts| - 1], name) + (if Ext(name) == exts[|exts| - 1] then [name] else [])
  }

  /** What FilterExt returns: the matches of each name, in the order of the
      names. */
  function Filtered(exts: seq<string>, names: seq<string>): seq<string>
  {
    if names == [] then []
    else Filtered(exts, names[..|names| - 1]) + Matches(exts, names[|names| - 1])
  }

  /** FilterExt, as a nested loop that only appends. */
  method FilterExt(exts: seq<string>, fileNames: seq<string>) returns (filteredFileNames: seq<string>)
    ensures filteredFileNames == Filtered(exts, fileNames)
  {
    filteredFileNames := [];
    for i := 0 to |fileNames|
      invariant filteredFileNames == Filtered(exts, fileNames[..i])
    {
      var fileName := fileNames[i];
      for j := 0 to |exts|
        invariant filteredFileNames == Filtered(exts, fileNames[..i]) + Matches(exts[..j], fileName)
      {
        assert exts[..j + 1][..j] == exts[..j];
        if Ext(fileName) == exts[j] {
          filteredFileNames := filteredFileNames + [fileName];
        }
      }
      assert exts[..|exts|] == exts;
      assert fileNames[..i + 1][..i] == fileNames[..i];
    }
    assert fileNames[..|fileNames|] == fileNames;
  }

  /** `n` copies of `x`. */
  function Copies(x: string, n: nat): seq<string>
  {
    seq(n, _ => x)
  }

  lemma {:induction false} CopiesCount(x: string, n: nat, y: string)
    ensures multiset(Copies(x, n))[y] == if y == x then n else 0
  {
    if n > 0 {
      CopiesCount(x, n - 1, y);
      assert Copies(x, n) == Copies(x, n - 1) + [x];
    }
  }

  /** The multiset of a non-empty sequence is that of all but its last
      element, plus the last. */
  lemma MultisetSnoc(s: seq<string>)
    requires s != []
    ensures multiset(s) == multiset(s[..|s| - 1]) + multiset{s[|s| - 1]}
  {
    assert s == s[..|s| - 1] + [s[|s| - 1]];
  }

  /** The matches of a name are that name, once per occurrence of its
      extension in `exts`. */
  lemma {:induction false} MatchesCopies(exts: seq<string>, name: string)
    ensures Matches(exts, name) == Copies(name, multiset(exts)[Ext(name)])
  {
    if exts != [] {
      var n := |exts|;
      MatchesCopies(exts[..n - 1], name);
      MultisetSnoc(exts);
    }
  }

  /** A name occurs in the result as often as it occurs in the input times
      the number of elements of `exts` equal to its extension: the inner
      loop has no break. */
  lemma {:induction false} FilteredMultiplicity(exts: seq<string>, names: seq<string>, x: string)
    ensures multiset(Filtered(exts, names))[x] == multiset(names)[x] * multiset(exts)[Ext(x)]
  {
    if names != [] {
      var front, last := names[..|names| - 1], names[|names| - 1];
      var k := multiset(exts)[Ext(x)];
      var kept, keptFront := multiset(Filtered(exts, names))[x], multiset(Filtered(exts, front))[x];
      var count, countFront := multiset(names)[x], multiset(front)[x];
      assert keptFront == countFront * k by {
        FilteredMultiplicity(exts, front, x);
      }
      assert kept == keptFront + (if last == x then k else 0) by {
        FilteredStepCount(exts, names, x);
      }
      assert count == countFront + (if last == x then 1 else 0) by {
        MultisetSnoc(names);
      }
      ProductStep(kept, keptFront, count, countFront, k, last == x);
    }
  }

  /** One more occurrence adds one more factor. */
  lemma ProductStep(kept: nat, keptFront: nat, count: nat, countFront: nat, k: nat, hit: bool)
    requires keptFront == countFront * k
    requires kept == keptFront + (if hit then k else 0)
    requires count == countFront + (if hit then 1 else 0)
    ensures kept == count * k
  {
    assert (countFront + (if hit then 1 else 0)) * k == countFront * k + (if hit then 1 else 0) * k;
  }

  /** The last name adds its copies, and only to its own count. */
  lemma FilteredStepCount(exts: seq<string>, names: seq<string>, x: string)
    requires names != []
    ensures multiset(Filtered(exts, names))[x] ==
            multiset(Filtered(exts, names[..|names| - 1]))[x] +
            (if names[|names| - 1] == x then multiset(exts)[Ext(x)] else 0)
  {
    var last := names[|names| - 1];
    MatchesCopies(exts, last);
    CopiesCount(last, multiset(exts)[Ext(last)], x);
  }


  /** A name is kept exactly when it is among the input names and its
      extension is among `exts`. */
  lemma FilteredMembers(exts: seq<string>, names: seq<string>, x: string)
    ensures x in Filtered(exts, names) <==> x in names && Ext(x) in exts
  {
    FilteredMultiplicity(exts, names, x);
    ProductPositive(multiset(names)[x], multiset(exts)[Ext(x)]);
  }

  lemma ProductPositive(a: nat, b: nat)
    ensures a * b > 0 <==> a > 0 && b > 0
  {
    if a > 0 && b > 0 {
      assert a * b == (a - 1) * b + b;
    }
  }

  /** No extensions, or no names, keep nothing. */
  lemma {:induction false} FilteredEmpty(exts: seq<string>, names: seq<string>)
    requires exts == [] || names == []
    ensures Filtered(exts, names) == []
  {
    if names != [] {
      FilteredEmpty(exts, names[..|names| - 1]);
    }
  }

  predicate NoDuplicates(s: seq<string>)
  {
    forall i, j :: 0 <= i < j < |s| ==> s[i] != s[j]
  }

  /** The names whose extension is among `exts`, in input order. */
  function WithExtension(exts: seq<string>, names: seq<string>): seq<string>
  {
    if names == [] then []
    else WithExtension(exts, names[..|names| - 1]) + (if Ext(names[|names| - 1]) in exts then [names[|names| - 1]] else [])
  }

  /** `a` is `b` with some elements deleted. */
  predicate IsSubsequence(a: seq<string>, b: seq<string>)
    decreases |b|
  {
    if a == [] then true
    else if b == [] then false
    else if a[|a| - 1] == b[|b| - 1] then IsSubsequence(a[..|a| - 1], b[..|b| - 1])
    else IsSubsequence(a, b[..|b| - 1])
  }

  lemma {:induction false} SubsequenceExtend(a: seq<string>, b: seq<string>, x: string)
    requires IsSubsequence(a, b)
    ensures IsSubsequence(a, b + [x])
    decreases |b|, 1
  {
    assert (b + [x])[..|b|] == b;
    if a != [] && a[|a| - 1] == x {
      SubsequenceDropLast(a, b);
    }
  }

  lemma {:induction false} SubsequenceDropLast(a: seq<string>, b: seq<string>)
    requires a != [] && IsSubsequence(a, b)
    ensures IsSubsequence(a[..|a| - 1], b)
    decreases |b|, 0
  {
    var fb := b[..|b| - 1];
    assert b == fb + [b[|b| - 1]];
    if a[|a| - 1] == b[|b| - 1] {
      SubsequenceExtend(a[..|a| - 1], fb, b[|b| - 1]);
    } else {
      SubsequenceDropLast(a, fb);
      SubsequenceExtend(a[..|a| - 1], fb, b[|b| - 1]);
    }
  }

  lemma {:induction false} SubsequenceLength(a: seq<string>, b: seq<string>)
    requires IsSubsequence(a, b)
    ensures |a| <= |b|
    decreases |b|
  {
    if a != [] {
      if a[|a| - 1] == b[|b| - 1] {
        SubsequenceLength(a[..|a| - 1], b[..|b| - 1]);
      } else {
        SubsequenceLength(a, b[..|b| - 1]);
      }
    }
  }

  /** With duplicate-free extensions a name matches at most once. */
  lemma MatchesAtMostOnce(exts: seq<string>, name: string)
    requires NoDuplicates(exts)
    ensures Matches(exts, name) == if Ext(name) in exts then [name] else []
  {
    MatchesCopies(exts, name);
    var c := multiset(exts)[Ext(name)];
    if c > 1 {
      DuplicateWitness(exts, Ext(name));
    }
    assert Ext(name) in exts <==> c > 0;
    assert c == 1 ==> Copies(name, c) == [name];
  }

  /** With duplicate-free extensions FilterExt is a plain order-preserving
      filter: its result is a subsequence of the input, and no longer. */
  lemma FilteredIsFilter(exts: seq<string>, names: seq<string>)
    requires NoDuplicates(exts)
    ensures Filtered(exts, names) == WithExtension(exts, names)
    ensures IsSubsequence(Filtered(exts, names), names)
    ensures |Filtered(exts, names)| <= |names|
  {
    FilteredWithExtension(exts, names);
    WithExtensionSubsequence(exts, names);
    SubsequenceLength(Filtered(exts, names), names);
  }

  lemma {:induction false} FilteredWithExtension(exts: seq<string>, names: seq<string>)
    requires NoDuplicates(exts)
    ensures Filtered(exts, names) == WithExtension(exts, names)
  {
    if names != [] {
      FilteredWithExtension(exts, names[..|names| - 1]);
      MatchesAtMostOnce(exts, names[|names| - 1]);
    }
  }

  /** The names with a listed extension are a subsequence of the names. */
  lemma {:induction false} WithExtensionSubsequence(exts: seq<string>, names: seq<string>)
    ensures IsSubsequence(WithExtension(exts, names), names)
  {
    if names != [] {
      var front, last := names[..|names| - 1], names[|names| - 1];
      WithExtensionSubsequence(exts, front);
      var kept := WithExtension(exts, front);
      if Ext(last) in exts {
        var w := kept + [last];
        assert WithExtension(exts, names) == w;
        assert w[|w| - 1] == last && w[..|w| - 1] == kept;
        assert IsSubsequence(w, names);
      } else {
        assert WithExtension(exts, names) == kept;
        SubsequenceExtend(kept, front, last);
        assert front + [last] == names;
      }
    }
  }

  /** A value that occurs twice sits at two different indices. */
  lemma {:induction false} DuplicateWitness(s: seq<string>, x: string)
    requires multiset(s)[x] > 1
    ensures !NoDuplicates(s)
  {
    var i :| 0 <= i < |s| && s[i] == x;
    var rest := s[..i] + s[i + 1..];
    assert s == s[..i] + [s[i]] + s[i + 1..];
    assert multiset(s) == multiset(s[..i]) + multiset{x} + multiset(s[i + 1..]);
    assert x in multiset(rest);
    var k :| 0 <= k < |rest| && rest[k] == x;
    if k < i {
      assert s[k] == x;
    } else {
      assert s[k + 1] == x;
    }
  }

  // ---------------------------------------------------------------------
  // WriteList

  /** The string-building loop of WriteList: a "\n" after every name but
      the last. */
  method FormatList(namesToWrite: seq<string>) returns (outputString: string)
    ensures outputString == Join(namesToWrite, '\n')
  {
    var numNames := |namesToWrite|;
    outputString := "";
    for index := 0 to numNames
      invariant index == 0 ==> outputString == ""
      invariant 0 < index ==>
        outputString == Join(namesToWrite[..index], '\n') + (if index < numNames then "\n" else "")
    {
      var name := namesToWrite[index];
      if index > 0 {
        assert namesToWrite[..index + 1] == namesToWrite[..index] + [name];
        JoinSnoc(namesToWrite[..index], name, '\n');
      } else {
        assert namesToWrite[..1] == [name];
      }
      if index == numNames - 1 {
        outputString := outputString + name;
      } else {
        outputString := outputString + name + "\n";
      }
    }
    assert numNames > 0 ==> namesToWrite[..numNames] == namesToWrite;
  }

  /** Why writing the list file failed. */
  datatype WriteError = CreateFailed(fileName: string) | WriteFailed(fileName: string)

  /** WriteList. Whether os.Create and WriteString succeed is given by
      `canCreate` and `canWrite`; on success the result is the text that
      replaces the file's contents. */
  method WriteList(fileName: string, namesToWrite: seq<string>, canCreate: bool, canWrite: bool)
      returns (r: Result<string, WriteError>)
    ensures !canCreate ==> r == Failure(CreateFailed(fileName))
    ensures canCreate && !canWrite ==> r == Failure(WriteFailed(fileName))
    ensures canCreate && canWrite ==> r == Success(Join(namesToWrite, '\n'))
  {
    if !canCreate {
      return Failure(CreateFailed(fileName));
    }
    var outputString := FormatList(namesToWrite);
    if !canWrite {
      return Failure(WriteFailed(fileName));
    }
    return Success(outputString);
  }

  // ---------------------------------------------------------------------
  // TraverseFolder

  /** What ioutil.ReadDir finds at a path: something that is not a
      directory, a directory with its listing in order, or a directory that
      cannot be read. */
  datatype Node = File | Dir(entries: seq<Entry>) | Unreadable

  /** One entry of a listing: its name and what it is. */
  datatype Entry = Entry(name: string, node: Node)

  /** file.IsDir() */
  predicate IsDirEntry(e: Entry)
  {
    !e.node.File?
  }

  /** The lengths of the fixed arrays `directories` and `realFiles`. */
  const DirSlots: nat := 5000
  const FileSlots: nat := 10000

  /** Why TraverseFolder stops the program: ReadDir failed (log.Fatal), or
      one of the two arrays overflowed (an index-out-of-range panic). */
  datatype TraverseError =
    | CannotEnter(folder: string)
    | FileSlotsExhausted(folder: string)
    | DirSlotsExhausted(folder: string)

  function FileCount(es: seq<Entry>): nat
  {
    if es == [] then 0 else FileCount(es[..|es| - 1]) + (if IsDirEntry(es[|es| - 1]) then 0 else 1)
  }

  function DirCount(es: seq<Entry>): nat
  {
    if es == [] then 0 else DirCount(es[..|es| - 1]) + (if IsDirEntry(es[|es| - 1]) then 1 else 0)
  }

  /** The listing fits the two arrays. */
  predicate Fits(es: seq<Entry>)
  {
    FileCount(es) <= FileSlots && DirCount(es) <= DirSlots
  }

  /** The panic of a listing that does not fit: that of the entry at which the
      first array runs out. */
  function Overflow(folder: string, es: seq<Entry>): (e: TraverseError)
    requires !Fits(es)
    ensures e == FileSlotsExhausted(folder) || e == DirSlotsExhausted(folder)
    decreases |es|
  {
    var front := es[..|es| - 1];
    if !Fits(front) then Overflow(folder, front)
    else if IsDirEntry(es[|es| - 1]) then DirSlotsExhausted(folder)
    else FileSlotsExhausted(folder)
  }

  /** path.Clean(folder + pathSeparator + file.Name()) */
  function EntryPath(folder: string, e: Entry): string
  {
    Clean(folder + "/" + e.name)
  }

  /** The paths of the entries that are not directories, in listing order. */
  function FilePaths(folder: string, es: seq<Entry>): seq<string>
  {
    if es == [] then []
    else FilePaths(folder, es[..|es| - 1]) +
         (if IsDirEntry(es[|es| - 1]) then [] else [EntryPath(folder, es[|es| - 1])])
  }

  /** The positions of the directories among the first `k` entries, in
      listing order. */
  function DirIndices(es: seq<Entry>, k: nat): (ds: seq<nat>)
    requires k <= |es|
    ensures |ds| == DirCount(es[..k])
    ensures forall i :: 0 <= i < |ds| ==> ds[i] < k && IsDirEntry(es[ds[i]])
  {
    if k == 0 then []
    else
      assert es[..k][..k - 1] == es[..k - 1];
      DirIndices(es, k - 1) + (if IsDirEntry(es[k - 1]) then [k - 1] else [])
  }

  /** `own` followed by the result of `r`, or the failure of `r`. */
  function Then(own: seq<string>, r: Result<seq<string>, TraverseError>): Result<seq<string>, TraverseError>
  {
    match r
    case Success(more) => Success(own + more)
    case Failure(e) => Failure(e)
  }

  /** TraverseFolder(folder, runRecursive) on the tree `node` found at
      `folder`. */
  function Walk(folder: string, node: Node, recursive: bool): Result<seq<string>, TraverseError>
    decreases node, 1
  {
    match node
    case Dir(es) =>
      if !Fits(es) then Failure(Overflow(folder, es))
      else if !recursive then Success(FilePaths(folder, es))
      else Then(FilePaths(folder, es), WalkDirs(folder, node, DirIndices(es, |es|)))
    case _ => Failure(CannotEnter(folder))
  }

  /** The recursive traversal of the directory at position `d` of `node`'s
      listing. */
  function WalkChild(folder: string, node: Node, d: nat): Result<seq<string>, TraverseError>
    requires node.Dir? && d < |node.entries|
    decreases node, 0, 0
  {
    Walk(EntryPath(folder, node.entries[d]), node.entries[d].node, true)
  }

  /** The recursive traversals of the directories at positions `ds`, one
      after the other, stopping at the first failure. */
  function WalkDirs(folder: string, node: Node, ds: seq<nat>): Result<seq<string>, TraverseError>
    requires node.Dir? && forall i :: 0 <= i < |ds| ==> ds[i] < |node.entries|
    decreases node, 0, |ds| + 1
  {
    if ds == [] then Success([])
    else
      match WalkChild(folder, node, ds[0])
      case Failure(e) => Failure(e)
      case Success(first) => Then(first, WalkDirs(folder, node, ds[1..]))
  }

  /** What the first loop of TraverseFolder has built after the first `k`
      entries: the file paths in `realFiles`, the directory paths in the
      first `dirIdx` slots of `directories` with their entries' positions in
      `origin`, and "" in every other slot. */
  ghost predicate SortedUpTo(folder: string, files: seq<Entry>, k: nat,
                             realFiles: seq<string>, fileIdx: nat,
                             directories: seq<string>, origin: seq<nat>, dirIdx: nat)
    requires k <= |files|
  {
    && |realFiles| == FileSlots && |directories| == DirSlots && |origin| == DirSlots
    && fileIdx == FileCount(files[..k]) && dirIdx == DirCount(files[..k])
    && fileIdx <= FileSlots && dirIdx <= DirSlots
    && realFiles[..fileIdx] == FilePaths(folder, files[..k])
    && origin[..dirIdx] == DirIndices(files, k)
    && (forall t :: 0 <= t < dirIdx ==> origin[t] < |files| && directories[t] == EntryPath(folder, files[origin[t]]))
    && (forall t :: dirIdx <= t < DirSlots ==> directories[t] == "")
  }

  /** One turn of the first loop of TraverseFolder: entry `k` goes into the
      next free slot of its array, or `full` reports that slot missing. */
  method SortEntry(folder: string, files: seq<Entry>, k: nat,
                   realFiles: array<string>, fileIdx: nat,
                   directories: array<string>, origin: array<nat>, dirIdx: nat)
      returns (full: bool, nextFileIdx: nat, nextDirIdx: nat)
    requires k < |files|
    requires realFiles != directories
    requires SortedUpTo(folder, files, k, realFiles[..], fileIdx, directories[..], origin[..], dirIdx)
    modifies realFiles, directories, origin
    ensures full <==> !Fits(files[..k + 1])
    ensures full ==> unchanged(realFiles, directories, origin)
    ensures !full ==> SortedUpTo(folder, files, k + 1, realFiles[..], nextFileIdx, directories[..], origin[..], nextDirIdx)
    ensures !full ==> forall t :: 0 <= t < FileSlots && t != fileIdx ==> realFiles[t] == old(realFiles[t])
    ensures !full ==> forall t :: 0 <= t < DirSlots && t != dirIdx ==>
      directories[t] == old(directories[t]) && origin[t] == old(origin[t])
    ensures !full && IsDirEntry(files[k]) ==> unchanged(realFiles)
    ensures !full && !IsDirEntry(files[k]) ==> unchanged(directories, origin)
  {
    var file := files[k];
    EntryStep(folder, files, k);
    nextFileIdx, nextDirIdx := fileIdx, dirIdx;
    if !IsDirEntry(file) {
      if fileIdx == FileSlots {
        return true, nextFileIdx, nextDirIdx;
      }
      realFiles[fileIdx] := EntryPath(folder, file);
      assert realFiles[..fileIdx + 1] == old(realFiles[..fileIdx]) + [EntryPath(folder, file)];
      nextFileIdx := fileIdx + 1;
    } else {
      if dirIdx == DirSlots {
        return true, nextFileIdx, nextDirIdx;
      }
      directories[dirIdx] := EntryPath(folder, file);
      origin[dirIdx] := k;
      assert origin[..dirIdx + 1] == old(origin[..dirIdx]) + [k];
      nextDirIdx := dirIdx + 1;
    }
    full := false;
  }

  /** The first loop of TraverseFolder: it sorts the listing into the fixed
      arrays `realFiles` and `directories`, and fails as the program panics
      when one of them is full. `origin` records which listing entry filled
      each slot of `directories`. */
  method SortEntries(folder: string, files: seq<Entry>)
      returns (overflow: Option<TraverseError>, realFiles: array<string>, fileIdx: nat,
               directories: array<string>, origin: array<nat>, dirIdx: nat)
    ensures fresh(realFiles) && fresh(directories) && fresh(origin)
    ensures realFiles.Length == FileSlots && directories.Length == DirSlots && origin.Length == DirSlots
    ensures overflow.Some? <==> !Fits(files)
    ensures overflow.Some? ==> overflow.value == Overflow(folder, files)
    ensures overflow.None? ==>
      && fileIdx <= FileSlots && realFiles[..fileIdx] == FilePaths(folder, files)
      && dirIdx <= DirSlots && origin[..dirIdx] == DirIndices(files, |files|)
      && (forall t :: 0 <= t < dirIdx ==> origin[t] < |files| && directories[t] == EntryPath(folder, files[origin[t]]))
      && (forall t :: dirIdx <= t < DirSlots ==> directories[t] == "")
  {
    directories := new string[DirSlots](_ => "");
    origin := new nat[DirSlots](_ => 0);
    realFiles := new string[FileSlots](_ => "");
    fileIdx, dirIdx := 0, 0;
    for k := 0 to |files|
      invariant Fits(files[..k])
      invariant SortedUpTo(folder, files, k, realFiles[..], fileIdx, directories[..], origin[..], dirIdx)
    {
      var full;
      full, fileIdx, dirIdx := SortEntry(folder, files, k, realFiles, fileIdx, directories, origin, dirIdx);
      if full {
        OverflowAt(folder, files, k);
        overflow := Some(if IsDirEntry(files[k]) then DirSlotsExhausted(folder) else FileSlotsExhausted(folder));
        return;
      }
    }
    assert files[..|files|] == files;
    overflow := None;
  }

  /** TraverseFolder. `node` is what ReadDir finds at `folder`, and the
      entry recorded in `origin` for a directory slot is what ReadDir finds
      at that slot's path. */
  method TraverseFolder(folder: string, node: Node, runRecursive: bool)
      returns (r: Result<seq<string>, TraverseError>)
    ensures r == Walk(folder, node, runRecursive)
    decreases node
  {
    if !node.Dir? {
      return Failure(CannotEnter(folder));
    }
    var files := node.entries;
    var overflow, realFiles, fileIdx, directories, origin, dirIdx := SortEntries(folder, files);
    if overflow.Some? {
      return Failure(overflow.value);
    }
    var recursive := runRecursive;
    if dirIdx == 0 {
      recursive := false;
    }
    var fileNames := realFiles[..fileIdx];
    ghost var ds := origin[..dirIdx];
    if recursive {
      var dirs, from := directories[..], origin[..];
      for i := 0 to DirSlots
        invariant Walk(folder, node, true) ==
                  Then(fileNames, WalkDirs(folder, node, ds[if i < dirIdx then i else dirIdx..]))
      {
        if dirs[i] != "" {
          assert i < dirIdx;
          var nextDir := TraverseFolder(dirs[i], files[from[i]].node, true);
          assert nextDir == WalkChild(folder, node, ds[i]);
          WalkDirsStep(folder, node, ds, i);
          if nextDir.Failure? {
            return Failure(nextDir.error);
          }
          ThenThen(fileNames, nextDir.value, WalkDirs(folder, node, ds[i + 1..]));
          fileNames := fileNames + nextDir.value;
        }
      }
      assert ds[dirIdx..] == [];
    } else if runRecursive {
      assert ds == [];
    }
    assert fileNames + [] == fileNames;
    return Success(fileNames);
  }

  /** Unfolding WalkDirs at position `i` of `ds`. */
  lemma WalkDirsStep(folder: string, node: Node, ds: seq<nat>, i: nat)
    requires node.Dir? && forall j :: 0 <= j < |ds| ==> ds[j] < |node.entries|
    requires i < |ds|
    ensures WalkDirs(folder, node, ds[i..]) ==
            match WalkChild(folder, node, ds[i])
            case Failure(e) => Failure(e)
            case Success(first) => Then(first, WalkDirs(folder, node, ds[i + 1..]))
  {
    assert ds[i..][0] == ds[i] && ds[i..][1..] == ds[i + 1..];
  }

  lemma ThenThen(a: seq<string>, b: seq<string>, r: Result<seq<string>, TraverseError>)
    ensures Then(a, Then(b, r)) == Then(a + b, r)
  {
    if r.Success? {
      assert a + (b + r.value) == (a + b) + r.value;
    }
  }

  /** What one more entry adds to the counts, the file paths and the
      directory positions. */
  lemma EntryStep(folder: string, files: seq<Entry>, k: nat)
    requires k < |files|
    ensures FileCount(files[..k + 1]) == FileCount(files[..k]) + (if IsDirEntry(files[k]) then 0 else 1)
    ensures DirCount(files[..k + 1]) == DirCount(files[..k]) + (if IsDirEntry(files[k]) then 1 else 0)
    ensures FilePaths(folder, files[..k + 1]) ==
            FilePaths(folder, files[..k]) + (if IsDirEntry(files[k]) then [] else [EntryPath(folder, files[k])])
    ensures DirIndices(files, k + 1) == DirIndices(files, k) + (if IsDirEntry(files[k]) then [k] else [])
  {
    assert files[..k + 1][..k] == files[..k];
  }

  lemma {:induction false} FitsPrefix(es: seq<Entry>, k: nat)
    requires k <= |es| && Fits(es)
    ensures Fits(es[..k])
    decreases |es|
  {
    if k < |es| {
      var front := es[..|es| - 1];
      FitsPrefix(front, k);
      assert front[..k] == es[..k];
    } else {
      assert es[..k] == es;
    }
  }

  /** The panic comes from the entry at which the counts first overflow. */
  lemma {:induction false} OverflowAt(folder: string, es: seq<Entry>, k: nat)
    requires k < |es| && Fits(es[..k]) && !Fits(es[..k + 1])
    ensures !Fits(es)
    ensures Overflow(folder, es) == if IsDirEntry(es[k]) then DirSlotsExhausted(folder) else FileSlotsExhausted(folder)
    decreases |es|
  {
    if k + 1 == |es| {
      assert es[..k + 1] == es;
      assert es[..|es| - 1] == es[..k];
    } else {
      var front := es[..|es| - 1];
      assert front[..k] == es[..k] && front[..k + 1] == es[..k + 1];
      OverflowAt(folder, front, k);
    }
  }

  lemma {:induction false} FilePathsCount(folder: string, es: seq<Entry>)
    ensures |FilePaths(folder, es)| == FileCount(es)
  {
    if es != [] {
      FilePathsCount(folder, es[..|es| - 1]);
    }
  }

  /** The own files of a folder are the paths of its entries that are not
      directories, and nothing else. */
  lemma {:induction false} FilePathsMembers(folder: string, es: seq<Entry>, p: string)
    ensures p in FilePaths(folder, es) <==>
            exists k :: 0 <= k < |es| && !IsDirEntry(es[k]) && p == EntryPath(folder, es[k])
  {
    if es != [] {
      var n := |es|;
      var front := es[..n - 1];
      FilePathsMembers(folder, front, p);
      if exists k :: 0 <= k < n - 1 && !IsDirEntry(front[k]) && p == EntryPath(folder, front[k]) {
        var k :| 0 <= k < n - 1 && !IsDirEntry(front[k]) && p == EntryPath(folder, front[k]);
        assert es[k] == front[k];
      }
      if exists k :: 0 <= k < n && !IsDirEntry(es[k]) && p == EntryPath(folder, es[k]) {
        var k :| 0 <= k < n && !IsDirEntry(es[k]) && p == EntryPath(folder, es[k]);
        if k < n - 1 {
          assert front[k] == es[k];
        }
      }
    }
  }

  /** A listing as a directory holds it: proper names, none twice. */
  ghost predicate ProperListing(es: seq<Entry>)
  {
    && (forall i :: 0 <= i < |es| ==> IsName(es[i].name))
    && (forall i, j :: 0 <= i < j < |es| ==> es[i].name != es[j].name)
  }

  /** The path of a directory entry is never among the own files. */
  lemma NoDirectoryListed(folder: string, es: seq<Entry>, d: nat)
    requires folder != "" && ProperListing(es)
    requires d < |es| && IsDirEntry(es[d])
    ensures EntryPath(folder, es[d]) !in FilePaths(folder, es)
  {
    var p := EntryPath(folder, es[d]);
    FilePathsMembers(folder, es, p);
    if p in FilePaths(folder, es) {
      var k :| 0 <= k < |es| && !IsDirEntry(es[k]) && p == EntryPath(folder, es[k]);
      CleanChild(folder, es[d].name);
      CleanChild(folder, es[k].name);
      ChildInjective(Clean(folder), es[d].name, es[k].name);
    }
  }

  /** The directories are visited in listing order, each one once. */
  lemma {:induction false} DirIndicesListingOrder(es: seq<Entry>, k: nat)
    requires k <= |es|
    ensures forall i, j :: 0 <= i < j < |DirIndices(es, k)| ==> DirIndices(es, k)[i] < DirIndices(es, k)[j]
    ensures forall m :: 0 <= m < k && IsDirEntry(es[m]) ==> m in DirIndices(es, k)
  {
    if k > 0 {
      DirIndicesListingOrder(es, k - 1);
    }
  }

  /** A recursive listing starts with the folder's own files. */
  lemma OwnFilesFirst(folder: string, es: seq<Entry>)
    requires Walk(folder, Dir(es), true).Success?
    ensures FilePaths(folder, es) <= Walk(folder, Dir(es), true).value
  {
  }

  /** The number of files in a tree, counted entry by entry. */
  function TreeFiles(node: Node): nat
    decreases node, 1
  {
    match node
    case Dir(es) => EntryFiles(node, |es|)
    case _ => 0
  }

  /** The files under the first `k` entries of `node`'s listing. */
  function EntryFiles(node: Node, k: nat): nat
    requires node.Dir? && k <= |node.entries|
    decreases node, 0, k
  {
    if k == 0 then 0
    else
      var e := node.entries[k - 1];
      EntryFiles(node, k - 1) + (if e.node.File? then 1 else TreeFiles(e.node))
  }

  /** The files in the trees of the directories at positions `ds`. */
  function DirFiles(node: Node, ds: seq<nat>): nat
    requires node.Dir? && forall i :: 0 <= i < |ds| ==> ds[i] < |node.entries|
    decreases |ds|
  {
    if ds == [] then 0 else TreeFiles(node.entries[ds[0]].node) + DirFiles(node, ds[1..])
  }

  lemma {:induction false} DirFilesSnoc(node: Node, ds: seq<nat>, x: nat)
    requires node.Dir? && x < |node.entries| && forall i :: 0 <= i < |ds| ==> ds[i] < |node.entries|
    ensures DirFiles(node, ds + [x]) == DirFiles(node, ds) + TreeFiles(node.entries[x].node)
    decreases |ds|
  {
    if ds == [] {
      assert [x][1..] == [];
    } else {
      assert (ds + [x])[0] == ds[0] && (ds + [x])[1..] == ds[1..] + [x];
      DirFilesSnoc(node, ds[1..], x);
    }
  }

  /** The files under the first `k` entries are the direct files there plus
      the files in the trees of the directories there. */
  lemma {:induction false} EntryFilesDirs(node: Node, k: nat)
    requires node.Dir? && k <= |node.entries|
    ensures EntryFiles(node, k) == FileCount(node.entries[..k]) + DirFiles(node, DirIndices(node.entries, k))
  {
    var es := node.entries;
    if k > 0 {
      var e, ds := es[k - 1], DirIndices(es, k - 1);
      EntryFilesDirs(node, k - 1);
      FileCountStep(es, k);
      if IsDirEntry(e) {
        assert DirIndices(es, k) == ds + [k - 1];
        DirFilesSnoc(node, ds, k - 1);
      } else {
        assert DirIndices(es, k) == ds;
      }
    }
  }

  /** One more entry counts as a file exactly when it is not a directory. */
  lemma FileCountStep(es: seq<Entry>, k: nat)
    requires 0 < k <= |es|
    ensures FileCount(es[..k]) == FileCount(es[..k - 1]) + (if IsDirEntry(es[k - 1]) then 0 else 1)
  {
    assert es[..k][..k - 1] == es[..k - 1] && es[..k][k - 1] == es[k - 1];
  }

  /** A recursive traversal lists as many paths as the tree has files. */
  lemma {:induction false} WalkCount(folder: string, node: Node)
    requires Walk(folder, node, true).Success?
    ensures |Walk(folder, node, true).value| == TreeFiles(node)
    decreases node, 1
  {
    var es := node.entries;
    FilePathsCount(folder, es);
    WalkDirsCount(folder, node, DirIndices(es, |es|));
    EntryFilesDirs(node, |es|);
    assert es[..|es|] == es;
  }

  /** The recursive listings of the directories at positions `ds` hold as
      many paths as their trees have files. */
  lemma {:induction false} WalkDirsCount(folder: string, node: Node, ds: seq<nat>)
    requires node.Dir? && forall i :: 0 <= i < |ds| ==> ds[i] < |node.entries|
    requires WalkDirs(folder, node, ds).Success?
    ensures |WalkDirs(folder, node, ds).value| == DirFiles(node, ds)
    decreases node, 0, |ds|
  {
    if ds != [] {
      var e := node.entries[ds[0]];
      assert WalkChild(folder, node, ds[0]) == Walk(EntryPath(folder, e), e.node, true);
      WalkCount(EntryPath(folder, e), e.node);
      WalkDirsCount(folder, node, ds[1..]);
    }
  }

  /** Every name in the tree is a proper name and no listing repeats one. */
  ghost predicate WellFormed(node: Node)
    decreases node
  {
    match node
    case Dir(es) =>
      ProperListing(es) && forall i :: 0 <= i < |es| ==> WellFormed(es[i].node)
    case _ => true
  }

  /** Every listed path lies inside the cleaned folder. */
  lemma {:induction false} WalkUnder(folder: string, node: Node, recursive: bool)
    requires folder != "" && WellFormed(node)
    requires Walk(folder, node, recursive).Success?
    ensures forall i :: 0 <= i < |Walk(folder, node, recursive).value| ==>
              DirPrefix(Clean(folder)) <= Walk(folder, node, recursive).value[i]
    decreases node, 1
  {
    var es := node.entries;
    FilePathsUnder(folder, es);
    if recursive {
      WalkDirsUnder(folder, node, DirIndices(es, |es|));
    }
  }

  lemma {:induction false} FilePathsUnder(folder: string, es: seq<Entry>)
    requires folder != "" && ProperListing(es)
    ensures forall i :: 0 <= i < |FilePaths(folder, es)| ==> DirPrefix(Clean(folder)) <= FilePaths(folder, es)[i]
  {
    if es != [] {
      var front := es[..|es| - 1];
      assert ProperListing(front);
      FilePathsUnder(folder, front);
      CleanChild(folder, es[|es| - 1].name);
    }
  }

  lemma {:induction false} WalkDirsUnder(folder: string, node: Node, ds: seq<nat>)
    requires folder != "" && WellFormed(node)
    requires node.Dir? && forall i :: 0 <= i < |ds| ==> ds[i] < |node.entries|
    requires WalkDirs(folder, node, ds).Success?
    ensures forall i :: 0 <= i < |WalkDirs(folder, node, ds).value| ==>
              DirPrefix(Clean(folder)) <= WalkDirs(folder, node, ds).value[i]
    decreases node, 0, |ds| + 1
  {
    if ds != [] {
      var e := node.entries[ds[0]];
      var sub := EntryPath(folder, e);
      var first := WalkChild(folder, node, ds[0]).value;
      var rest := WalkDirs(folder, node, ds[1..]).value;
      assert WalkDirs(folder, node, ds).value == first + rest;
      var top := DirPrefix(Clean(folder));
      assert forall i :: 0 <= i < |first| ==> top <= first[i] by {
        ChildUnder(folder, e.name);
        WalkUnder(sub, e.node, true);
      }
      assert forall i :: 0 <= i < |rest| ==> top <= rest[i] by {
        WalkDirsUnder(folder, node, ds[1..]);
      }
    }
  }

  /** What lies inside the path of an entry lies inside the folder. */
  lemma ChildUnder(folder: string, name: string)
    requires folder != "" && IsName(name)
    ensures DirPrefix(Clean(folder)) <= DirPrefix(Clean(Clean(folder + "/" + name)))
  {
    CleanIdempotent(folder + "/" + name);
    CleanChild(folder, name);
    DirPrefixOfChild(Clean(folder), name);
  }
}
