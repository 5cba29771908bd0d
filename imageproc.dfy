/** imageproc/imageproc.go: where classify sends an image, and the output
    directories Begin prepares. */
module ImageProc {
  import opened Wrappers
  import opened Text
  import opened GoPath

  // ---------------------------------------------------------------------
  // classify

  /** The three buckets of an image. */
  datatype Bucket = SolidColor | Mask | Unclassified

  /** The bucket of an image with `colorNum` distinct colours. */
  function BucketOf(colorNum: nat): (b: Bucket)
    ensures b == SolidColor <==> colorNum == 1
    ensures b == Mask <==> colorNum == 2
    ensures b == Unclassified <==> colorNum != 1 && colorNum != 2
  {
    if colorNum == 1 then SolidColor
    else if colorNum == 2 then Mask
    else Unclassified
  }

  /** The new location classify renames an image to, if any. */
  function Destination(imageName: string, colorNum: nat): (d: Option<string>)
    ensures d.Some? <==> colorNum == 1 || colorNum == 2
    ensures d.Some? ==> d.value != ""
  {
    match BucketOf(colorNum)
    case SolidColor => Some(JoinPath("./solid_color/", imageName))
    case Mask => Some(JoinPath("./masks/", imageName))
    case Unclassified => None
  }

  /** What classify does with one image. `MoveFailed` is the log.Fatal after
      a failed os.Rename. */
  datatype Outcome = NotFound | LeftInPlace | Moved(to: string) | MoveFailed(to: string)

  /** classify(imageName). `colors` is the count GetImageColors gives, or
      None when ReadImage fails; `renameOk` is whether os.Rename succeeds. */
  function Classify(imageName: string, colors: Option<nat>, renameOk: bool): (o: Outcome)
    ensures colors.None? ==> o == NotFound
    ensures colors.Some? && colors.value == 1 ==>
              o == if renameOk then Moved(JoinPath("./solid_color/", imageName))
                   else MoveFailed(JoinPath("./solid_color/", imageName))
    ensures colors.Some? && colors.value == 2 ==>
              o == if renameOk then Moved(JoinPath("./masks/", imageName))
                   else MoveFailed(JoinPath("./masks/", imageName))
    ensures colors.Some? && colors.value != 1 && colors.value != 2 ==> o == LeftInPlace
  {
    match colors
    case None => NotFound
    case Some(n) =>
      match Destination(imageName, n)
      case None => LeftInPlace
      case Some(to) => if renameOk then Moved(to) else MoveFailed(to)
  }

  /** An image is moved at most once, and only to the directory of its
      bucket: a file can never end up both in masks and in solid_color. */
  lemma MovedOnlyByBucket(imageName: string, colors: Option<nat>, renameOk: bool)
    requires Classify(imageName, colors, renameOk).Moved?
    ensures colors.Some? && renameOk && BucketOf(colors.value) != Unclassified
    ensures Classify(imageName, colors, renameOk).to ==
            if colors.value == 1 then JoinPath("./solid_color/", imageName) else JoinPath("./masks/", imageName)
  {
  }

  /** "./<dir>/" splits into ".", the directory and an empty piece. */
  lemma SplitDotDir(dir: string)
    requires '/' !in dir
    ensures Split("./" + dir + "/", '/') == [".", dir, ""]
  {
    assert "./" + dir + "/" == "." + ['/'] + (dir + ['/'] + "");
    SplitAround(".", dir + ['/'] + "", '/');
    SplitAround(dir, "", '/');
    SplitPlain(".", '/');
    SplitPlain(dir, '/');
    assert Split("", '/') == [""];
  }

  /** The elements of "./<dir>/" followed by a slash and a path. */
  lemma ElementsUnderDot(dir: string, p: string)
    requires IsName(dir)
    ensures Elements("./" + dir + "/" + "/" + p) == [dir] + Elements(p)
  {
    assert "./" + dir + "/" + "/" + p == ("./" + dir + "/") + ['/'] + p;
    SplitAround("./" + dir + "/", p, '/');
    SplitDotDir(dir);
    KeepAppend([".", dir, ""], Split(p, '/'));
    assert KeepElements([".", dir, ""]) == [dir] by {
      assert [".", dir, ""][1..] == [dir, ""] && [dir, ""][1..] == [""] && [""][1..] == [];
      assert KeepElements([""]) == [];
      assert KeepElements([dir, ""]) == [dir];
    }
  }

  /** When the image path has no "..", classify's destination is the bucket
      directory, relative to the working directory, followed by the image
      path with its leading slash, "." elements and repeated slashes
      dropped. */
  lemma DestinationPath(dir: string, imageName: string)
    requires IsName(dir) && ".." !in Elements(imageName)
    ensures JoinPath("./" + dir + "/", imageName) ==
            if Elements(imageName) == [] then dir else dir + "/" + Join(Elements(imageName), '/')
  {
    var es := Elements(imageName);
    var q := "./" + dir + "/" + "/" + imageName;
    assert ("./" + dir + "/") + "/" + imageName == q;
    ElementsUnderDot(dir, imageName);
    ResolveWithoutDotDot(false, [], [dir] + es);
    assert CleanElements(q) == [dir] + es;
    if es != [] {
      assert ([dir] + es)[1..] == es;
    } else {
      assert Join([dir], '/') == dir;
    }
  }

  // ---------------------------------------------------------------------
  // Begin

  /** maskDir in Begin, for the first image path `first`. */
  function MaskDirOf(first: string): string
  {
    JoinPath(Dir(first), "masks")
  }

  /** solidDir in Begin, for the first image path `first`. */
  function SolidDirOf(first: string): string
  {
    JoinPath(Dir(first), "solid_color")
  }

  /** Both output directories sit side by side in the first image's
      directory, and they are different directories. */
  lemma OutputDirs(first: string)
    ensures MaskDirOf(first) == Child(Dir(first), "masks")
    ensures SolidDirOf(first) == Child(Dir(first), "solid_color")
    ensures MaskDirOf(first) != SolidDirOf(first)
  {
    var d := Dir(first);
    JoinPathChild(d, "masks");
    JoinPathChild(d, "solid_color");
    CleanIdempotent(first[..LastSlash(first) + 1]);
    if Child(d, "masks") == Child(d, "solid_color") {
      ChildInjective(d, "masks", "solid_color");
    }
  }

  /** classify moves into "./solid_color" and "./masks" under the working
      directory, not into the directories Begin prepares: for a rooted image
      path the destination is relative while Begin's directories are
      rooted. */
  lemma DestinationIgnoresBegin(imageName: string, colorNum: nat)
    requires IsRooted(imageName) && (colorNum == 1 || colorNum == 2)
    ensures IsRooted(MaskDirOf(imageName)) && IsRooted(SolidDirOf(imageName))
    ensures !IsRooted(Destination(imageName, colorNum).value)
  {
    var top := imageName[..LastSlash(imageName) + 1];
    assert IsRooted(top);
    CleanRooted(top);
    var d := Dir(imageName);
    CleanRooted(d + "/" + "masks");
    CleanRooted(d + "/" + "solid_color");
    CleanRooted("./solid_color/" + "/" + imageName);
    CleanRooted("./masks/" + "/" + imageName);
  }

  /** Paths at which a directory with path `p` exists once os.MkdirAll(p)
      succeeds: `p` and every prefix of it that ends before a slash. */
  function Ancestry(p: string): set<string>
  {
    {p} + set i | 0 < i < |p| && p[i] == '/' :: p[..i]
  }

  /** The file system as Begin sees it. */
  class FileSystem {
    /** The paths at which os.Stat succeeds. */
    var present: set<string>
    /** The paths at which os.MkdirAll fails. */
    const denied: set<string>
    /** The paths passed to os.MkdirAll, in order. */
    var made: seq<string>

    constructor (present: set<string>, denied: set<string>)
      ensures this.present == present && this.denied == denied && made == []
    {
      this.present := present;
      this.denied := denied;
      made := [];
    }

    /** os.Stat(p) succeeds. */
    method Stat(p: string) returns (found: bool)
      ensures found == (p in present)
    {
      found := p in present;
    }

    /** os.MkdirAll(p, os.ModePerm). */
    method MkdirAll(p: string) returns (ok: bool)
      modifies this`present, this`made
      ensures ok == (p !in denied)
      ensures made == old(made) + [p]
      ensures present == if ok then old(present) + Ancestry(p) else old(present)
    {
      ok := p !in denied;
      made := made + [p];
      if ok {
        present := present + Ancestry(p);
      }
    }
  }

  /** The file system after Begin's setup, the os.MkdirAll calls it made,
      and the directory it could not create, if any. */
  datatype Setup = Setup(present: set<string>, calls: seq<string>, failed: Option<string>)

  /** Stat-then-create for one directory. */
  function EnsureDir(present: set<string>, denied: set<string>, d: string): (r: Setup)
    ensures present <= r.present
    ensures r.failed.None? <==> d in r.present
    ensures r.failed.Some? ==> r.failed == Some(d) && r.present == present && d in denied
    ensures r.calls == if d in present then [] else [d]
  {
    if d in present then Setup(present, [], None)
    else if d in denied then Setup(present, [d], Some(d))
    else Setup(present + Ancestry(d), [d], None)
  }

  /** Begin's setup of masks then solid_color; log.Fatal at the first
      directory that cannot be created. */
  function PrepareDirs(present: set<string>, denied: set<string>, first: string): Setup
  {
    var mask := EnsureDir(present, denied, MaskDirOf(first));
    if mask.failed.Some? then mask
    else
      var solid := EnsureDir(mask.present, denied, SolidDirOf(first));
      Setup(solid.present, mask.calls + solid.calls, solid.failed)
  }

  /** Why Begin stops the program. */
  datatype SetupError = CannotCreate(dir: string)

  /** Begin, up to the fan-out of classify: derives the two output
      directories from the first image path and creates each one that is
      missing. */
  method Begin(fs: FileSystem, imageList: seq<string>) returns (r: Result<(string, string), SetupError>)
    requires |imageList| > 0
    modifies fs
    ensures var s := PrepareDirs(old(fs.present), fs.denied, imageList[0]);
      && fs.present == s.present
      && fs.made == old(fs.made) + s.calls
      && r == if s.failed.Some? then Failure(CannotCreate(s.failed.value))
              else Success((MaskDirOf(imageList[0]), SolidDirOf(imageList[0])))
  {
    var workDir := Dir(imageList[0]);
    var maskDir := JoinPath(workDir, "masks");
    var solidDir := JoinPath(workDir, "solid_color");
    var found := fs.Stat(maskDir);
    if !found {
      var ok := fs.MkdirAll(maskDir);
      if !ok {
        return Failure(CannotCreate(maskDir));
      }
    }
    found := fs.Stat(solidDir);
    if !found {
      var ok := fs.MkdirAll(solidDir);
      if !ok {
        return Failure(CannotCreate(solidDir));
      }
    }
    return Success((maskDir, solidDir));
  }

  /** After a successful setup both output directories exist, and nothing
      that existed before is gone. */
  lemma PrepareReady(present: set<string>, denied: set<string>, first: string)
    requires PrepareDirs(present, denied, first).failed.None?
    ensures MaskDirOf(first) in PrepareDirs(present, denied, first).present
    ensures SolidDirOf(first) in PrepareDirs(present, denied, first).present
    ensures present <= PrepareDirs(present, denied, first).present
  {
  }

  /** When both directories already exist the setup creates nothing and
      cannot fail. */
  lemma PrepareWhenPresent(present: set<string>, denied: set<string>, first: string)
    requires MaskDirOf(first) in present && SolidDirOf(first) in present
    ensures PrepareDirs(present, denied, first) == Setup(present, [], None)
  {
  }

  /** The setup is idempotent: run again on its own result it creates
      nothing and changes nothing. */
  lemma PrepareIdempotent(present: set<string>, denied: set<string>, first: string)
    requires PrepareDirs(present, denied, first).failed.None?
    ensures var s := PrepareDirs(present, denied, first);
            PrepareDirs(s.present, denied, first) == Setup(s.present, [], None)
  {
    PrepareReady(present, denied, first);
    PrepareWhenPresent(PrepareDirs(present, denied, first).present, denied, first);
  }

  /** A directory is handed to os.MkdirAll only when os.Stat did not find
      it, and the setup fails only at a missing directory it may not
      create. */
  lemma PrepareCallsOnlyMissing(present: set<string>, denied: set<string>, first: string)
    ensures var s := PrepareDirs(present, denied, first);
            forall d :: d in s.calls ==> d !in present && (d == MaskDirOf(first) || d == SolidDirOf(first))
    ensures var s := PrepareDirs(present, denied, first);
            s.failed.Some? ==> s.failed.value !in present && s.failed.value in denied
  {
    OutputDirs(first);
  }
}
