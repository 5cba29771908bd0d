# tex-pack-helper: a Dafny model of the file lists and the image sorter

tex-pack-helper post-processes texture images that a neural upscaler has
enlarged. This project models the two packages that do the actual work:

- `list` builds lists of file names. It walks a directory tree
  (`TraverseFolder`), keeps the names with a given extension (`FilterExt`)
  and writes a list file with one name per line (`WriteList`).
- `imageproc` sorts the upscaled images. `Begin` derives a `masks` and a
  `solid_color` directory from the first image path and creates each one
  that is missing. `classify` moves an image with exactly one colour to
  `./solid_color/` and one with exactly two colours to `./masks/`, and
  leaves every other image where it is.

The files:

- `wrappers.dfy`: `Option` and `Result`.
- `text.dfy` (module `Text`): Go's `strings.Split` and `strings.Join` for a
  one-character separator, and the round trips between them.
- `gopath.dfy` (module `GoPath`): the parts of Go's `path` package the core
  calls. `Clean` follows Go's documented lexical rules: a path is cut at
  every `/`, empty and `.` elements are dropped, `..` is resolved from
  left to right against a stack of kept elements, and the result is
  written back. `JoinPath` is `path.Join` of two elements, and `Dir` and
  `Ext` are `path.Dir` and `path.Ext`.
- `filelist.dfy` (module `FileList`): `list/list.go`.
- `imageproc.dfy` (module `ImageProc`): `imageproc/imageproc.go`.

The loops of `list.go` are methods with loop invariants. Each is proved
equal to a specification function: `Filtered` for `FilterExt`, `Join` for
the text of `WriteList`, and `Walk` for `TraverseFolder`. Lemmas then
prove what those functions mean.

`TraverseFolder` keeps the Go program's shape:

- two fixed arrays, of 5000 directories and 10000 files;
- a first pass that sorts the listing into them;
- a second pass over all 5000 directory slots that skips the empty ones
  and recurses into the others.

A directory tree (`Node`) stands in for what `ioutil.ReadDir` would find.
A `log.Fatal` and an index-out-of-range panic both become a `Failure` that
names its cause.

`Begin` works on a `FileSystem` object. It records where `os.Stat`
succeeds, where `os.MkdirAll` fails and which `os.MkdirAll` calls were
made. `Begin` is proved equal to the function `PrepareDirs`, and lemmas
prove that this setup is idempotent.

Points where the code's behaviour is easy to misread:

- **Move failures.** A failed `os.Rename` ends the program with
  `log.Fatal` (`imageproc/imageproc.go:95-98` and `:102-105`); it is
  modelled as the outcome `MoveFailed`.
- **Destinations.** `classify` moves an image to `path.Join("./masks/",
  name)` or `path.Join("./solid_color/", name)`
  (`imageproc/imageproc.go:94`, `:101`), under the working directory,
  whatever the image's own directory is. `Begin` creates its two
  directories next to the first image instead (`:33-35`).
  `ImageProc.DestinationIgnoresBegin` shows the two differ for every
  absolute image path.
- **Repairs.** The package comment (`imageproc/imageproc.go:8-17`)
  describes a second stage that makes the black part of masks transparent
  and a third that remaps solid-colour images. The code has neither:
  `fixMask` is an empty function and nothing calls a remap.
- **Concurrency.** `Begin` starts one goroutine per image
  (`imageproc/imageproc.go:63-65`) and does not wait for them.

## Model

| member | source | states |
|---|---|---|
| Text.Split | list/list.go:99 | a split always yields at least one piece, as `strings.Split` does for the separator `/` that `path.Clean` works with |
| Text.Join | list/list.go:61-69 | reference definition of `strings.Join` with a one-character separator: "" for no parts, the part itself for one; its meaning is stated by `JoinSnoc`, `JoinLength`, `JoinSplit` and `SplitJoin` |
| Text.SplitPieces | list/list.go:99 | no piece of a split contains the separator |
| Text.SplitPlain | list/list.go:99 | text without the separator splits into itself alone |
| Text.SplitAround | list/list.go:99 | a separator between two texts splits the whole into the pieces of the first followed by the pieces of the second |
| Text.JoinSnoc | list/list.go:63-69 | appending one more part to a join adds exactly one separator and that part |
| Text.JoinLength | list/list.go:61-69 | the list text is as long as all names together plus one newline between each pair of neighbours (none after the last) |
| Text.JoinSplit | list/list.go:61-69 | joining the pieces of a split gives back the original text |
| Text.SplitJoin | list/list.go:61-69 | when no name contains a newline, splitting the list text at newlines gives back exactly the names, in order |
| GoPath.Clean | list/list.go:99-117 | `path.Clean` never returns the empty string, so the `dir != ""` test only skips slots that were never filled |
| GoPath.JoinPath | imageproc/imageproc.go:34-35 | `path.Join` of two arguments is empty exactly when both are; its other properties are `JoinPathChild` and `ElementsUnderDot` |
| GoPath.LastSlash | imageproc/imageproc.go:33 | the index found is that of a `/`, or -1, and no `/` comes after it |
| GoPath.Dir | imageproc/imageproc.go:33 | `path.Dir` never returns the empty string |
| GoPath.DirOfChild | imageproc/imageproc.go:33 | `path.Dir` of a name placed inside a cleaned directory is that directory again |
| GoPath.CleanTrailingSlash | imageproc/imageproc.go:33 | a trailing slash makes no difference once a non-empty path is cleaned |
| GoPath.Ext | list/list.go:26 | the extension is empty or a suffix of the path that starts with its only `.` and holds no `/`; it is empty exactly when the last element has no `.` |
| GoPath.DirPrefixOfChild | list/list.go:118 | the prefix of paths inside a child is the parent's prefix followed by the child's name and a `/` |
| GoPath.StepNormal | list/list.go:99 | one step of `..` resolution keeps the kept elements in normal form (elements only; no `..` in a rooted path; every `..` ahead of every name) |
| GoPath.ResolveNormal | list/list.go:99 | resolving any sequence of elements keeps the normal form |
| GoPath.KeepPieces | list/list.go:99 | dropping empty and `.` pieces leaves only proper elements |
| GoPath.ElementsAreElements | list/list.go:99 | every element of a path is non-empty, not `.`, and slash-free |
| GoPath.CleanElementsNormal | list/list.go:99 | what `Clean` keeps is in normal form |
| GoPath.ResolveSnoc | list/list.go:99 | resolving one more element is one more resolution step |
| GoPath.ResolveOfNormal | list/list.go:99 | resolving a normal form changes nothing |
| GoPath.KeepAppend | list/list.go:99 | dropping empty and `.` pieces distributes over concatenation |
| GoPath.KeepOfElements | list/list.go:99 | dropping empty and `.` pieces leaves proper elements unchanged |
| GoPath.RenderElements | list/list.go:99 | reading a cleaned path back gives the same elements and the same rootedness |
| GoPath.CleanIdempotent | list/list.go:99 | cleaning a cleaned path changes nothing |
| GoPath.ElementsChild | list/list.go:99 | appending `/` and a name adds that name as one more element |
| GoPath.JoinOfElements | list/list.go:99 | a join of elements begins with the first element's first character and is never `.` |
| GoPath.RenderChild | list/list.go:99 | writing back one more name places it inside the rendering of the others |
| GoPath.CleanChild | list/list.go:99-102 | `path.Clean(folder + "/" + name)` is the name placed inside the cleaned folder |
| GoPath.JoinPathChild | imageproc/imageproc.go:34-35 | `path.Join(dir, name)` of a non-empty directory is the name inside the cleaned directory |
| GoPath.ChildInjective | list/list.go:99-102 | different names give different paths inside one directory |
| GoPath.CleanRooted | imageproc/imageproc.go:33-35 | cleaning keeps a path absolute exactly when it was absolute |
| GoPath.ResolveWithoutDotDot | imageproc/imageproc.go:94 | without `..` elements, resolution keeps every element in order |
| FileList.FilterExt | list/list.go:17-33 | the nested loop returns `Filtered`: for each file name in order, one copy for each listed extension equal to its `path.Ext` |
| FileList.Filtered | list/list.go:20-30 | reference definition of what FilterExt returns: the matches of each name in input order; its meaning is stated by `FilteredMultiplicity`, `FilteredMembers` and `FilteredIsFilter` |
| FileList.CopiesCount | list/list.go:25-29 | `n` copies of a name hold that name `n` times and nothing else |
| FileList.MatchesCopies | list/list.go:25-29 | the inner loop adds the name once for every element of `exts` equal to its extension |
| FileList.FilteredStepCount | list/list.go:20-30 | one more file name adds its own copies and changes the count of no other name |
| FileList.FilteredMultiplicity | list/list.go:20-30 | a name occurs in the result as often as it occurs in the input times the number of times its extension is listed (the inner loop has no `break`) |
| FileList.FilteredMembers | list/list.go:20-30 | a name is in the result if and only if it is an input name whose extension is in `exts` |
| FileList.FilteredEmpty | list/list.go:17-33 | no extensions, or no names, give an empty result |
| FileList.MatchesAtMostOnce | list/list.go:25-29 | with no repeated extension a name matches once if its extension is listed and otherwise not at all |
| FileList.FilteredIsFilter | list/list.go:17-33 | with no repeated extension the result is the input names with a listed extension in input order: a subsequence of the input and no longer than it |
| FileList.FilteredWithExtension | list/list.go:17-33 | with no repeated extension FilterExt keeps exactly the names whose extension is listed, in input order |
| FileList.WithExtensionSubsequence | list/list.go:20-30 | the names with a listed extension, in input order, are a subsequence of the names |
| FileList.DuplicateWitness | list/list.go:25 | an extension listed twice sits at two different positions of `exts` |
| FileList.SubsequenceExtend | list/list.go:17-33 | a subsequence stays one when the longer sequence grows |
| FileList.SubsequenceDropLast | list/list.go:17-33 | dropping the last element of a subsequence leaves a subsequence |
| FileList.SubsequenceLength | list/list.go:17-33 | a subsequence is no longer than the sequence it is taken from |
| FileList.FormatList | list/list.go:61-69 | the loop's text is the names joined by newlines, with no newline after the last one and "" for no names |
| FileList.WriteList | list/list.go:36-77 | a failed `os.Create` or `WriteString` returns its error; otherwise the file's new contents are the names joined by newlines |
| FileList.DirIndices | list/list.go:97-105 | the directory positions among the first `k` entries number as many as the directories there, and each is a directory entry before `k` |
| FileList.EntryPath | list/list.go:99 | reference definition of the slot contents `path.Clean(folder + "/" + name)`; `CleanChild` and `ChildInjective` state what it is |
| FileList.Overflow | list/list.go:99-102 | the index panic of a listing that does not fit is the exhaustion of the file array or of the directory array of the same folder; `OverflowAt` pins down which |
| FileList.FileCountStep | list/list.go:97-100 | one more entry adds one file exactly when it is not a directory |
| FileList.SortEntries | list/list.go:92-105 | the first loop overflows exactly when the listing has more than 10000 files or more than 5000 directories, and it fails at the first entry that does not fit; otherwise `realFiles[:fileIdx]` is the file paths in listing order, the filled `directories` slots are the sub-directory paths in listing order, and every other slot is "" |
| FileList.SortEntry | list/list.go:97-105 | one turn of the first loop puts the entry into the next free slot of its array or reports that array full; every other slot of all three arrays keeps its value, and the array of the other kind is untouched, and the arrays then hold what the first `k + 1` entries give |
| FileList.TraverseFolder | list/list.go:82-126 | the result is `Walk`: `CannotEnter` when the folder cannot be read; otherwise the overflow of the fixed arrays; otherwise the folder's own files, followed in recursive mode by the recursive listings of its sub-directories in listing order, stopping at the first failure |
| FileList.Walk | list/list.go:82-126 | reference definition of the traversal: `CannotEnter` for an unreadable folder, the overflow of the fixed arrays, the own files, then in recursive mode the listings of the sub-directories in listing order; its meaning is stated by `WalkCount`, `WalkUnder`, `OwnFilesFirst` and `NoDirectoryListed` |
| FileList.WalkDirsStep | list/list.go:116-121 | one slot of the recursion loop is the listing of that directory followed by the rest |
| FileList.ThenThen | list/list.go:119 | appending to the accumulated names is associative |
| FileList.EntryStep | list/list.go:97-105 | one more entry adds to the file count, the directory count, the file paths and the directory positions exactly according to its kind |
| FileList.FitsPrefix | list/list.go:92-105 | a listing that fits the arrays fits them in every prefix |
| FileList.OverflowAt | list/list.go:97-105 | the panic is that of the array of the entry at which the counts first overflow |
| FileList.FilePathsCount | list/list.go:97-100 | the folder's own files are as many as its entries that are not directories |
| FileList.FilePathsMembers | list/list.go:97-100 | a path is among the own files if and only if it is the cleaned path of an entry that is not a directory |
| FileList.NoDirectoryListed | list/list.go:97-104 | in a listing whose names are proper and distinct, no sub-directory's path appears among the own files |
| FileList.DirIndicesListingOrder | list/list.go:116-121 | the sub-directories are visited in strictly increasing listing order, and every one of them is visited |
| FileList.OwnFilesFirst | list/list.go:112-119 | a recursive listing starts with the folder's own files |
| FileList.WalkCount | list/list.go:107-125 | a successful recursive listing has exactly as many entries as the tree has files, counted independently entry by entry |
| FileList.WalkDirsCount | list/list.go:116-121 | the recursive listings of the sub-directories visited hold as many paths as their trees have files |
| FileList.DirFilesSnoc | list/list.go:116-121 | visiting one more sub-directory adds the files of its tree |
| FileList.EntryFilesDirs | list/list.go:97-121 | the files under the first `k` entries are the direct files there plus the files in the trees of the directories there |
| FileList.WalkUnder | list/list.go:99-119 | in a tree with proper names, every listed path lies inside the cleaned starting folder |
| FileList.FilePathsUnder | list/list.go:99 | every own file path lies inside the cleaned folder |
| FileList.WalkDirsUnder | list/list.go:116-121 | every path from the sub-directory listings lies inside the cleaned folder |
| FileList.ChildUnder | list/list.go:102-118 | what lies inside a sub-directory's path lies inside the folder |
| ImageProc.BucketOf | imageproc/imageproc.go:92-106 | one colour is solid colour, two colours are a mask, and every other count is unclassified |
| ImageProc.Classify | imageproc/imageproc.go:75-107 | an unreadable image is left alone; a one-colour image is moved to `path.Join("./solid_color/", name)` and a two-colour one to `path.Join("./masks/", name)`, fatally if the rename fails; every other image stays in place |
| ImageProc.Destination | imageproc/imageproc.go:92-106 | a destination exists exactly for one or two colours, and it is never the empty path; `DestinationPath` says what it is |
| ImageProc.MovedOnlyByBucket | imageproc/imageproc.go:92-106 | an image is moved only when it was read, renamed and has one or two colours, and only to its own bucket's directory |
| ImageProc.SplitDotDir | imageproc/imageproc.go:94 | `"./dir/"` splits at slashes into `.`, `dir` and an empty piece |
| ImageProc.ElementsUnderDot | imageproc/imageproc.go:94 | the elements of `"./dir/" + "/" + p` are `dir` followed by the elements of `p` |
| ImageProc.DestinationPath | imageproc/imageproc.go:92-106 | for an image path without `..` the destination is the bucket directory followed by the image path with its leading slash, `.` elements and doubled slashes removed |
| ImageProc.OutputDirs | imageproc/imageproc.go:33-35 | `maskDir` and `solidDir` are `masks` and `solid_color` inside `path.Dir` of the first image, and they differ |
| ImageProc.MaskDirOf | imageproc/imageproc.go:34 | reference definition of `maskDir`; `OutputDirs` states where it lies |
| ImageProc.SolidDirOf | imageproc/imageproc.go:35 | reference definition of `solidDir`; `OutputDirs` states where it lies |
| ImageProc.DestinationIgnoresBegin | imageproc/imageproc.go:92-106 | for an absolute image path `Begin`'s directories are absolute while classify's destination is relative to the working directory |
| ImageProc.FileSystem.constructor | imageproc/imageproc.go:38 | a file system with the given existing and uncreatable paths and no calls yet |
| ImageProc.FileSystem.Stat | imageproc/imageproc.go:38 | `os.Stat` succeeds exactly at existing paths |
| ImageProc.FileSystem.MkdirAll | imageproc/imageproc.go:43-46 | `os.MkdirAll` is recorded; it fails exactly at uncreatable paths, and on success the path and all its parents exist |
| ImageProc.EnsureDir | imageproc/imageproc.go:38-47 | stat-then-create for one directory: existing paths are kept; `os.MkdirAll` is called exactly when `os.Stat` does not find it; afterwards the directory exists unless the call failed, and a failure names it, changes nothing and happens only at an uncreatable path |
| ImageProc.PrepareDirs | imageproc/imageproc.go:37-57 | reference definition of the setup: `maskDir` first, and `solidDir` only when that did not fail; its meaning is stated by `PrepareReady`, `PrepareWhenPresent`, `PrepareIdempotent` and `PrepareCallsOnlyMissing` |
| ImageProc.Begin | imageproc/imageproc.go:32-57 | a non-empty image list is required; the new file system and the calls made are those of `PrepareDirs`; the result is the fatal error of the first directory that cannot be created, or the two directories |
| ImageProc.PrepareReady | imageproc/imageproc.go:37-57 | after a successful setup both directories exist and nothing that existed is gone |
| ImageProc.PrepareWhenPresent | imageproc/imageproc.go:38-40 | when both directories exist the setup makes no call and cannot fail |
| ImageProc.PrepareIdempotent | imageproc/imageproc.go:37-57 | running the setup again after a successful one makes no call and changes nothing |
| ImageProc.PrepareCallsOnlyMissing | imageproc/imageproc.go:37-57 | `os.MkdirAll` is called only for one of the two directories and only when `os.Stat` did not find it; a failure names a missing, uncreatable directory |

## Left out

- The `go classify(imageName)` fan-out of `Begin` (`imageproc/imageproc.go:63-65`): concurrency is not modelled. `Begin` stops after the directory setup and returns the two directories.
- `fixMask` is an empty function in the code, so it is not modelled. The mask transparency and solid-colour remap that the package comment (`imageproc/imageproc.go:8-17`) describes do not exist in the code.
- ImageMagick (`ReadImage`, `GetImageColors`) is not modelled. `ImageProc.Classify` takes the colour count, or the read failure, as an input.
- `log.Printf`, `fmt.Println` and `imagick.Initialize`/`Terminate` are not modelled; they only print or set up a library.
- `FileList.WriteList`: the `os.Stat`/`os.Remove` of an existing file and the file itself are not modelled. Whether `os.Create` and `WriteString` succeed are inputs, and the result is the text written.
- `FileList.TraverseFolder`: the tree `Node` stands in for `ioutil.ReadDir`, and a sub-directory's tree stands for what a fresh `ReadDir` of its path would give. The model takes a listing in any order, where `ReadDir` sorts by name, and treats everything that is not a directory as a file, as `IsDir` does.
- `ImageProc.FileSystem.MkdirAll`: a failing call creates nothing here, whereas the real call may have created some parents first.
- `ImageProc.Begin`: an empty image list is excluded by a precondition; the code panics when it indexes `imageList[0]`.
- Go's slices aliasing the fixed arrays (`realFiles[0:fileIdx]` followed by `append`) is not observable in the program, so the model copies values.
- `EntryPath` uses "/" for `pathSeparator = string(os.PathSeparator)` (`list/list.go:84`): the model fixes the separator of the Unix systems the program drives `bash` on; Windows' `\\` is not modelled.
- Go strings are bytes and a Dafny `string` is a sequence of characters: one character of the model stands for one byte, so `Text.JoinLength` counts what Go's `len` counts only for single-byte text; UTF-8 encoding is not modelled.
- `imageproc/waifu2x.go`, `preset/dolphin.go` and `main.go` (running the upscaler, preset paths, command line) are not part of this model.
