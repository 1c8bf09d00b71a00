# Page manifest generator, modelled in Dafny

`generate_pages.py` builds the page list of a picture book reader. It checks
that the image folder exists, keeps the entries of that folder whose
extension (lower-cased) is one of `.jpg`, `.jpeg`, `.png`, `.webp`, `.gif`,
`.avif`, prefixes each with `folder + "/"`, sorts the result in Python's
string order, and writes `{title, pages}` to `pages.json`. It then reports
the page count, the title and the first and last page. A missing folder or a
folder without images ends the run early with a message.

The model is pure: `GeneratePages.Generate` takes the answer of the
directory test (`isDir`), the folder name, the folder's listing (a sequence
of names in any order) and the title, and returns an `Outcome`:
`FolderMissing`, `NoImages` or `Success(Manifest(title, pages))`.
`GeneratePages.Summarize` computes what the success message reports.

Modules:

- `Strings` (`strings.dfy`): ASCII lower-casing, last index of a character,
  and Python's string order `LexLessEq` with its order laws.
- `Sorting` (`sorting.dfy`): `sorted` as an insertion sort, with the proof
  that any sorted permutation of a sequence equals it (`SortedUnique`).
- `Paths` (`paths.dfy`): POSIX `os.path.splitext`. Its result is
  characterised by the ghost predicate `ExtensionAt`: the extension starts at
  the last '.' of the last path component, provided some character of that
  component before the dot is not a dot.
- `GeneratePages` (`generate_pages.dfy`): the generator and its properties.
- `PageExamples` (`page_examples.dfy`): an upper-case extension
  (`PHOTO.JPG`), double extensions (`archive.tar.png`, `image.png.txt`), a
  hidden file (`.png`), and the generator on a small folder.

## Model

| member | source | states |
|---|---|---|
| GeneratePages.Generate | generate_pages.py:18-33 | `FolderMissing` exactly when the folder is not a directory; `NoImages` exactly when it is one and no listed name is an image; on success the title is the one given, the pages are sorted, and they are a permutation of the prefixed image names |
| GeneratePages.SupportedExtensions | generate_pages.py:16 | definition: the six supported extensions, lower-case with their dot |
| GeneratePages.IsImage | generate_pages.py:26 | definition: the lower-cased extension is supported; `IsImageIgnoresCase` and the `PageExamples` lemmas describe it |
| GeneratePages.PagePath | generate_pages.py:24 | the path is the folder, a '/', then the name, so the name can be read back from it |
| GeneratePages.Pages | generate_pages.py:23-27 | the page list is sorted and is a permutation of the prefixed image names |
| GeneratePages.PagesEmpty | generate_pages.py:23-31 | the page list is empty exactly when no listed name is an image |
| GeneratePages.Images | generate_pages.py:25-26 | each name occurs in the filtered list as often as in the listing if it is an image, and not at all otherwise |
| GeneratePages.InFolder | generate_pages.py:24 | same length as the names; the i-th entry is `folder + "/"` followed by the i-th name |
| GeneratePages.Summarize | generate_pages.py:38-41 | the count is the number of pages, the title is the manifest's, first and last are pages, and for sorted pages they are the least and the greatest page |
| GeneratePages.PagesSound | generate_pages.py:23-27 | every page is the folder path of a listed name that is an image |
| GeneratePages.PagesComplete | generate_pages.py:23-27 | a listed name's folder path is among the pages exactly when the name is an image |
| GeneratePages.SortedImagesMembers | generate_pages.py:25-26 | a name is among the sorted images exactly when it is listed and is an image |
| GeneratePages.PageCount | generate_pages.py:38 | on success the number of pages, and the reported count, equals the number of listed image names |
| GeneratePages.ReportedEnds | generate_pages.py:39-41 | on success the reported title is the given title, the first page is the least and the last page the greatest |
| GeneratePages.PagesOrderedByName | generate_pages.py:23-27 | sorting the prefixed paths gives the same order as sorting the bare names and then prefixing |
| GeneratePages.SortInFolder | generate_pages.py:23-24 | sorting commutes with prefixing every name by the same folder |
| GeneratePages.InFolderInsert | generate_pages.py:23-24 | inserting a prefixed name into prefixed sorted names is the prefixed insertion |
| GeneratePages.InFolderSorted | generate_pages.py:24 | prefixing every name with the folder keeps a sorted sequence sorted |
| GeneratePages.PagePathInjective | generate_pages.py:24 | two names with the same folder path are the same name |
| GeneratePages.IsImageIgnoresCase | generate_pages.py:26 | two names equal up to letter case are both images or both not |
| GeneratePages.ListingOrderIrrelevant | generate_pages.py:23-27 | two listings with the same names, in any order, give the same outcome |
| GeneratePages.PagesUnique | generate_pages.py:23 | the pages are the only sorted arrangement of the prefixed image names |
| Sorting.Sort | generate_pages.py:23 | the result is sorted and a permutation of the input |
| Sorting.Insert | generate_pages.py:23 | inserting into a sorted sequence keeps it sorted and adds exactly the new element |
| Sorting.SortedUnique | generate_pages.py:23 | two sorted sequences with the same elements are equal, so the sort is determined by its input |
| Sorting.SortedSameFirst | generate_pages.py:23 | two non-empty sorted sequences with the same elements start with the same element |
| Sorting.SortedEnds | generate_pages.py:40-41 | the first element of a sorted sequence is its least element and the last its greatest |
| Strings.LexLessEq | generate_pages.py:23 | definition of Python's string order; a prefix is ordered before the longer string; `LexReflexive`, `LexAntisymmetric`, `LexTransitive` and `LexTotal` show it is a total order |
| Strings.LexTransitive | generate_pages.py:23 | the string order is transitive |
| Strings.LexTotal | generate_pages.py:23 | any two strings are comparable |
| Strings.LexAntisymmetric | generate_pages.py:23 | strings ordered both ways are equal |
| Strings.LexReflexive | generate_pages.py:23 | every string is ordered before or equal to itself |
| Strings.LexCommonPrefix | generate_pages.py:24 | a common prefix does not change how two strings compare |
| Strings.LowerChar | generate_pages.py:26 | the result is never an upper-case ASCII letter; upper-case letters become their lower-case letter and every other character is kept |
| Strings.Lower | generate_pages.py:26 | lower-casing keeps the length |
| Strings.LowerSuffix | generate_pages.py:26 | lower-casing commutes with taking a suffix |
| Strings.LastIndexOf | generate_pages.py:26 | the result is -1 or an index holding the character, and no later index holds it |
| Paths.ExtensionAt | generate_pages.py:26 | definition of where an extension starts: the last '.' of the last path component, preceded in that component by a character that is not a dot; `ExtensionAtIsLastDot` ties it to the last '.' |
| Paths.OnlyDots | generate_pages.py:26 | definition: every character is a dot, the case in which a leading run of dots does not start an extension |
| Paths.SplitExt | generate_pages.py:26 | root and extension concatenate to the name; the extension is non-empty exactly when the name has one, and then starts at the position `ExtensionAt` describes |
| Paths.ExtensionStart | generate_pages.py:26 | the result is the unique extension start, or -1 when there is none |
| Paths.ExtensionAtIsLastDot | generate_pages.py:26 | an extension starts at the last '.', after the last '/', with a non-dot character between them |
| Paths.Extension | generate_pages.py:26 | the extension is a suffix of the name, empty or starting with '.', with no further '.' or '/', non-empty exactly when the name has one |
| Paths.ExtensionAtLower | generate_pages.py:26 | lower-casing does not move where the extension starts |
| Paths.ExtensionOfLower | generate_pages.py:26 | the extension of the lower-cased name is the lower-cased extension |
| PageExamples.UpperCaseExtension | generate_pages.py:26 | `PHOTO.JPG` has extension `.JPG` and is an image |
| PageExamples.LastDotCounts | generate_pages.py:26 | `archive.tar.png` has extension `.png` and is an image |
| PageExamples.TextIsNotAnImage | generate_pages.py:26 | `image.png.txt` and `note.txt` have extension `.txt` and are not images |
| PageExamples.HiddenFileHasNoExtension | generate_pages.py:26 | `.png` has no extension and is not an image |
| PageExamples.SmallFolderOrder | generate_pages.py:23 | `b.png, a.jpg, c.gif` sort to `a.jpg, b.png, c.gif` |
| PageExamples.SmallFolder | generate_pages.py:18-33 | with the default folder and title, a folder listing `b.png, a.jpg, c.gif, note.txt` gives the three images, prefixed and sorted |

## Left out

- The directory test and the listing of the folder are inputs (`isDir`,
  `listing`), not file system calls.
- Listing failures are not modelled: `os.listdir` (line 25) raises when
  the directory cannot be read or has disappeared after the directory test
  of line 19, and the program then stops with a traceback. The model has no
  outcome for this; `Generate` with `isDir` true always returns `NoImages`
  or `Success`.
- Names holding bytes that do not decode are listed by Python as lone
  surrogates (U+DC80 to U+DCFF). Dafny's `char` cannot hold a surrogate, so
  such names, and where they fall in the code-point order of line 23, are
  outside the model.
- Writing `pages.json` (lines 35-36) is not modelled; the `Manifest` value
  is what would be written. JSON encoding is not part of this model.
- The messages printed on each path are not modelled as text; the outcome
  constructor and the `Report` fields stand for them.
- Command-line parsing (lines 44-47) is not modelled; its defaults are the
  constants `DefaultFolder` and `DefaultTitle`.
- Strings.Lower: only ASCII letters are lower-cased, not the whole of
  Unicode. This decides membership in the supported set exactly: the only
  non-ASCII characters whose lower-case form contains ASCII letters are
  U+0130 and U+212A, and neither can produce a supported extension.
- Sorting.Sort: `sorted` is modelled by an insertion sort; `SortedUnique`
  shows every sorted permutation is the same sequence, so the algorithm is
  not observable.
- The listing is not checked to contain only regular files: like the code,
  a sub-directory named `x.png` would become a page.
