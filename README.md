# Photography site scripts: compressor and client manifests

This project models the two maintenance scripts of a photography portfolio
site.

- **`compress_photography.py`** walks `images/PHOTOGRAPHY/` and picks every file
  whose lowercased suffix is `.jpg`, `.jpeg`, `.png`, `.jpe` or `.webp`. It
  processes the files in sorted path order. For each one it:
  - normalises the colour mode to RGB or L;
  - scales the image down to at most 3000 pixels wide;
  - saves it back over the original with settings chosen by the extension;
  - counts the successes.

  A failure on one file is reported, and the loop moves on to the next.
- **`build_client_manifests.py`** lists the visible sub-folders of
  `images/PHOTOGRAPHY/CLIENT/` in sorted order. For each folder it records the
  sorted names of the image files directly inside it. The image extensions
  here are `.jpg`, `.jpeg`, `.png`, `.gif` and `.webp`. The resulting ordered
  dictionary becomes `client-manifests.json`. A missing root is created, and
  an empty manifest is written.

How the model stands in for the outside world:

- The file system is a tree value (`Filesystem.Node`). A directory maps names
  to entries, so names within one directory are unique.
- A missing root is `None`.
- Python's `sorted` over paths and names is a strictly increasing sequence
  under the lexicographic order of parts and code points (`Ordering`).
- `Path.suffix` and `str.lower()` are in `Paths`.
- Pillow is not modelled. An image is its mode and size. Each Pillow call that
  changes the image is an `Op` applied to that value. The save call is a
  recorded `SaveAction`.
- Whether a Pillow call raises for a given file is an input: a `Trial` names
  the steps that raise. This lets the model state what `optimize_image`
  returns in every case.

The modules are `Wrappers`, `Ordering`, `Paths`, `Filesystem`,
`CompressPhotography` and `BuildClientManifests`.

`int()` at `compress_photography.py:50` truncates the new height; `ResizeTarget`
uses the floor.

## Model

| member | source | states |
|---|---|---|
| Paths.LastDot | compress_photography.py:26 | `rfind('.')` inside `Path.suffix`: the index of the last dot, or -1 when there is none |
| Paths.Lower | compress_photography.py:26 | `str.lower()` on ASCII letters, character by character; the length is kept |
| Paths.Suffix | compress_photography.py:26 | the suffix is empty exactly when the name ends in a dot or has no dot after its first character; otherwise it is the name's tail from its last dot, has at least one character after the dot, and is shorter than the name |
| Paths.HasSuffixIn | compress_photography.py:26 | `path.suffix.lower() in exts`, the test both scripts apply (also `build_client_manifests.py:33`); characterised by `Paths.HasSuffixInIff` |
| Paths.HasSuffixInIff | build_client_manifests.py:33 | the lowercased suffix is in an allow-list exactly when the name ends, ignoring case, with one of the extensions and has a non-empty stem before it |
| CompressPhotography.IsImage | compress_photography.py:25-26 | `is_image`: the lowercased suffix is in the allow-list of line 22; characterised by `IsImageIff` |
| CompressPhotography.IsImageIff | compress_photography.py:22-26 | `is_image` holds exactly when the name ends, ignoring case, with `.jpg`, `.jpeg`, `.png`, `.jpe` or `.webp` after a non-empty stem |
| CompressPhotography.IsImageAccepts | compress_photography.py:25-26 | `A.JPG` and `.hidden.webp` are images: case is ignored, and hidden files count |
| CompressPhotography.IsImageRejects | compress_photography.py:25-26 | `photo.gif`, `.jpg` and `photo.` are not images |
| CompressPhotography.NormalizeOps | compress_photography.py:35-45 | the Pillow calls of the colour step for each mode: flatten for RGBA, convert to RGBA then flatten for P, nothing for RGB and L, convert to RGB otherwise; properties in `NormalizeYieldsRgbOrL`, `NormalizeRoutes`, `NormalizeStages` |
| CompressPhotography.NormalizeYieldsRgbOrL | compress_photography.py:35-45 | after normalisation the mode is RGB or L and the size is unchanged; no operation is applied exactly when the mode already was RGB or L |
| CompressPhotography.NormalizeRoutes | compress_photography.py:35-45 | only RGBA and P are composited onto white; only P is converted to RGBA first; every other mode besides RGB and L, LA included, gets a plain RGB conversion |
| CompressPhotography.NormalizeStages | compress_photography.py:35-45 | which Pillow calls of the colour step an image of each mode reaches, and hence which failures can stop it |
| CompressPhotography.NormalizeMode | compress_photography.py:35-45 | the colour step applies exactly the normalisation operations, or reports failure exactly when one of them raises; the `else` at lines 42-43 is proved unreachable |
| CompressPhotography.ResizeTarget | compress_photography.py:47-50 | a width over 3000 becomes 3000 and the height becomes the floor of height·3000/width; otherwise the size is kept; the width never exceeds 3000 and the height never grows |
| CompressPhotography.ResizeExample | compress_photography.py:47-50 | 4000×2000 becomes 3000×1500, 4000×3 becomes 3000×2 (truncated, not rounded), and 3000×5000 is untouched |
| CompressPhotography.ResizeOps | compress_photography.py:47-51 | the resize call, present only for an image wider than 3000, to `ResizeTarget`; properties in `PlannedImage` |
| CompressPhotography.PlannedOps | compress_photography.py:35-51 | the Pillow calls made on an opened image, in order: the colour step, then the resize on the image that step yields; properties in `PlannedImage` |
| CompressPhotography.Downscale | compress_photography.py:47-51 | the resize step applies exactly the planned resize, or reports failure exactly when that resize raises |
| CompressPhotography.SaveBranchOf | compress_photography.py:53-60 | the branch of the extension test taken for a lowercased suffix; properties in `SaveFormatByExtension` |
| CompressPhotography.ActionOf | compress_photography.py:54-61 | the arguments of each `save` call: JPEG at quality 85 with optimize, PNG with optimize, WEBP at quality 85 with method 6, and JPEG again for the fallback |
| CompressPhotography.SaveFormatByExtension | compress_photography.py:53-61 | for every name `is_image` accepts the fallback branch is never taken; PNG is chosen for `.png` only, WEBP for `.webp` only, JPEG for `.jpg`, `.jpeg` and `.jpe` |
| CompressPhotography.PlannedImage | compress_photography.py:35-51 | the image that reaches the save call is L for an L input and RGB otherwise, and its size is `ResizeTarget` of the decoded size (so at most 3000 wide, aspect ratio kept up to truncation, never taller); an RGB or L image at most 3000 wide has no operation applied |
| CompressPhotography.Optimize | compress_photography.py:29-65 | `optimize_image` as one value: the planned operations, the image they yield and the save settings when no call raises, False and nothing written otherwise; properties in `OptimizeOutcome` |
| CompressPhotography.OptimizeOutcome | compress_photography.py:29-65 | the result is True exactly when something was written; True when nothing raises; False when opening or saving raises; what is written is L for an L input and RGB otherwise, sized `ResizeTarget` of the decoded size (at most 3000 wide, no taller than the original), and saved with the settings for its extension; a small RGB or L image is saved with its mode and size unchanged and no operation applied; and, in terms of the inputs alone, the result is True exactly when neither opening nor saving raises, nor any colour or resize call that the image's mode and width make the code reach |
| CompressPhotography.OptimizeExample | compress_photography.py:47-55 | a 4000×2000 RGB `x.jpg` on which nothing raises is saved as a 3000×1500 JPEG at quality 85 with optimize, after one resize |
| CompressPhotography.OptimizeImage | compress_photography.py:29-65 | the step-by-step procedure returns exactly the outcome described by `Optimize`: any raising call gives False with nothing written, and no failure escapes |
| CompressPhotography.Name | compress_photography.py:26 | `path.name`, the last part of a path, to which `is_image` and `optimize_image` apply; used by `ImageFiles` and `OutcomesAt` |
| CompressPhotography.ImageFiles | compress_photography.py:73 | a path is selected exactly when it leads from the root to a file, at any depth, and its name passes `is_image` |
| Filesystem.FilesUnder | compress_photography.py:73 | `rglob("*")` filtered by `is_file()`: the files directly in the root plus those below each subdirectory; characterised by `FilesUnderIsFilesBelow` |
| Filesystem.FilesUnderIsFilesBelow | compress_photography.py:73 | the recursive listing contains a path exactly when the path leads from the root to a file |
| CompressPhotography.CountOk | compress_photography.py:82-92 | the count is at most the number of files, equals it exactly when every file succeeded, and is 0 exactly when none did |
| CompressPhotography.Outcomes | compress_photography.py:83-90 | the result of each file of the loop, in order; each is that file's own outcome by `OutcomesAt` |
| CompressPhotography.OutcomesAt | compress_photography.py:83-90 | each file's result depends only on that file, so a failure does not change later results |
| CompressPhotography.ProcessFiles | compress_photography.py:82-90 | every file is processed once, in the given order, each result is that file's `optimize_image` outcome, and `ok` counts the successes |
| CompressPhotography.CompressAll | compress_photography.py:68-92 | a root that is not a directory stops the run before anything is touched; no matching file ends the run with nothing processed; otherwise the files are exactly the image files, strictly sorted by path, and each has its own outcome and `ok` counts the successes; the exit status is 1 exactly when the root is not a directory |
| Ordering.SortSet | compress_photography.py:73 | sorting distinct items gives a strictly increasing sequence holding exactly those items |
| Ordering.SortedUnique | build_client_manifests.py:25 | two strictly increasing sequences with the same items are equal, so the sorted order is determined by the items |
| Ordering.PathLessIsStrictTotal | compress_photography.py:73 | comparison of paths by their parts is a strict total order |
| Ordering.StrLessIsStrictTotal | build_client_manifests.py:25 | string comparison by code points is a strict total order |
| Ordering.FilterKeepsSorted | build_client_manifests.py:32-34 | keeping some items of a sorted list keeps it sorted |
| Ordering.FilterIsSubsequence | build_client_manifests.py:32-34 | the kept items form a subsequence of the list |
| BuildClientManifests.IsClientImage | build_client_manifests.py:33 | the suffix test with the allow-list of line 13; characterised by `ClientImageIff` |
| BuildClientManifests.ClientImageIff | build_client_manifests.py:13-33 | the manifest's image test holds exactly when the name ends, ignoring case, with `.jpg`, `.jpeg`, `.png`, `.gif` or `.webp` after a non-empty stem |
| BuildClientManifests.IsHidden | build_client_manifests.py:29 | `name.startswith(".")`; used by `ManifestSpec` to exclude hidden folders |
| BuildClientManifests.ClientImageAccepts | build_client_manifests.py:33 | `a.JPG`, `b.gif` and `b.png` are images for the manifest: case is ignored and GIF counts |
| BuildClientManifests.ClientImageRejects | build_client_manifests.py:33 | `c.jpe`, `note.txt` and `.jpg` are not |
| BuildClientManifests.Manifest.Put | build_client_manifests.py:35 | assigning a key keeps every key listed exactly once; a new key goes last and an existing key keeps its place |
| BuildClientManifests.Listing | build_client_manifests.py:25-32 | the sorted listing of a folder holds each of its entries once, in strictly increasing order |
| BuildClientManifests.IsClientFolder | build_client_manifests.py:26-30 | an entry gets a key exactly when it is a directory and its name does not start with a dot; properties in `ManifestOfMeetsSpec` |
| BuildClientManifests.IsImageEntry | build_client_manifests.py:33 | an entry of a folder is listed exactly when it is a file and passes the manifest's image test; properties in `ImagesAmongIsFilter` and `ImagesOfListsImages` |
| BuildClientManifests.ImagesAmong | build_client_manifests.py:31-34 | the names the inner loop appends, in listing order; equal to a filter of the listing by `ImagesAmongIsFilter` |
| BuildClientManifests.ImagesAmongIsFilter | build_client_manifests.py:32-34 | the appends of the inner loop keep exactly the listed names that are files passing the suffix test, in listing order |
| BuildClientManifests.ImagesOf | build_client_manifests.py:31-34 | the list built for one folder; its contents stated by `ImagesOfListsImages` |
| BuildClientManifests.CollectImages | build_client_manifests.py:31-34 | the inner loop builds exactly the folder's image list |
| BuildClientManifests.ImagesOfListsImages | build_client_manifests.py:31-34 | a folder's list holds exactly its image files, so subdirectories are excluded even with an image name; it is sorted, has no duplicates, and is a subsequence of the folder's sorted listing |
| BuildClientManifests.ManifestFor | build_client_manifests.py:24-35 | the manifest after the outer loop has seen a prefix of the sorted listing, one `d[name] = files` per visible folder; its shape stated by `ManifestForShape` |
| BuildClientManifests.ManifestOf | build_client_manifests.py:24-35 | the manifest after the whole listing; meets `ManifestSpec` by `ManifestOfMeetsSpec` |
| BuildClientManifests.ManifestForShape | build_client_manifests.py:24-35 | over a sorted listing, the keys are the visible sub-folders in listing order and each key maps to that folder's image list |
| BuildClientManifests.ManifestOfMeetsSpec | build_client_manifests.py:24-35 | the manifest built has one key per visible sub-folder and nothing else (no plain file, no hidden folder), its keys are in sorted order, and each value lists exactly that folder's image files, sorted |
| BuildClientManifests.ManifestSpecUnique | build_client_manifests.py:24-38 | that description fixes the manifest, key order included, so the same listing always yields the same JSON and a rerun is idempotent |
| BuildClientManifests.BuildManifests | build_client_manifests.py:16-38 | a missing root is created and the empty manifest written; an existing non-directory makes `os.makedirs` raise; an existing root gives the manifest of its listing |
| BuildClientManifests.RerunAfterCreate | build_client_manifests.py:17-22 | a run after the root was created again writes the empty manifest |
| BuildClientManifests.AcmeExample | build_client_manifests.py:31-35 | a folder `acme` with `a.JPG`, `b.png` and `note.txt`, beside a hidden folder and a plain file, gives exactly `{"acme": ["a.JPG", "b.png"]}` with bare file names |

## Left out

- Pillow's pixel work is not modelled: decoding, `load`, conversion, alpha compositing, LANCZOS resampling and the encoders. An image is its mode and size. Which calls raise is an input (`Trial.raisesAt`).
- Creating the white background (`Image.new`, line 36) has no stage of its own. It raising gives the same False result as a raising flatten step.
- CompressPhotography.ResizeTarget: uses the exact floor of height·3000/width. Python computes `int(height * (3000 / width))` in floating point, which can be one less when the exact value is an integer.
- CompressPhotography.ResizeTarget: a very wide, very thin image gets a target height of 0. Whether Pillow then raises is left to the failure input.
- CompressPhotography.OptimizeImage: a save that raises after writing part of the file is modelled as writing nothing. Partial overwrites are not modelled.
- CompressPhotography.OptimizeImage: only `Exception` is caught in the source. `KeyboardInterrupt` and other `BaseException`s would escape; they are not modelled.
- Pillow mode names are a datatype. The four names the code tests for (RGBA, P, RGB, L) and two further examples of other modes (LA, CMYK) are constructors. Every other name is `OtherMode`, whose name cannot be one of those six. Whether that name is a mode Pillow knows is not modelled.
- `str.lower()` is modelled for ASCII letters only. Both allow-lists are ASCII, so a non-ASCII letter never matches either way.
- `Path.suffix` follows Python 3.12/3.13. A name ending in a dot has no suffix. Python 3.14 treats `photo.` as having suffix `.`, which no allow-list contains.
- Path ordering follows POSIX: case-sensitive comparison of the parts. Windows ordering, which case-folds the parts, is not modelled.
- Symbolic links, permissions and file-system races are not modelled. A directory entry is a file, a directory or neither.
- The path of the first failure in `os.makedirs` is reduced to the root itself: an existing non-directory root makes it raise. Other creation errors are not modelled.
- The JSON encoding of the manifest (`indent=2`) and the file writes are outputs, not modelled. The manifest is an ordered map.
- All console output is left out: progress lines, `Error: ...`, the summary and the per-client counts.
- The `ImportError` exit when Pillow is missing is left out.
- `dev_server.py` is not part of this model. It only configures a third-party live-reload server.
