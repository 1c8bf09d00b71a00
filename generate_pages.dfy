/**
 The manifest generator of `generate_pages.py`: given whether the image
 folder is a directory and what it lists, decide between "folder missing",
 "no images" and a manifest `{title, pages}` whose pages are the folder's
 image files, prefixed with the folder, in ascending string order.
 */
module GeneratePages {
  import opened Strings
  import opened Sorting
  import opened Paths

  /** Extensions, lower-case and with their dot, that make a listed name a page. */
  const SupportedExtensions: set<string> := {".jpg", ".jpeg", ".png", ".webp", ".gif", ".avif"}

  /** Defaults of the command line's `--folder` and `--title`. */
  const DefaultFolder: string := "books_pages"
  const DefaultTitle: string := "My Book"

  /** The manifest written to `pages.json`. */
  datatype Manifest = Manifest(title: string, pages: seq<string>)

  /** How a run ends. */
  datatype Outcome =
    | FolderMissing
    | NoImages
    | Success(manifest: Manifest)

  /** The values the success message reports. */
  datatype Report = Report(count: nat, title: string, first: string, last: string)

  /** A listed name is a page when its lower-cased extension is supported. */
  predicate IsImage(name: string)
  {
    Lower(Extension(name)) in SupportedExtensions
  }

  /** The path a page gets in the manifest. */
  function PagePath(folder: string, name: string): (r: string)
    ensures |r| == |folder| + 1 + |name|
    ensures r[..|folder|] == folder && r[|folder|] == '/' && r[|folder| + 1..] == name
  {
    folder + "/" + name
  }

  /** The listed names that are pages, in listing order. */
  function Images(listing: seq<string>): (r: seq<string>)
    ensures forall x :: multiset(r)[x] == if IsImage(x) then multiset(listing)[x] else 0
  {
    if listing == [] then []
    else
      assert listing == [listing[0]] + listing[1..];
      (if IsImage(listing[0]) then [listing[0]] else []) + Images(listing[1..])
  }

  /** Every name prefixed with `folder + "/"`, in the same order. */
  function InFolder(folder: string, names: seq<string>): (r: seq<string>)
    ensures |r| == |names|
    ensures forall i :: 0 <= i < |names| ==> r[i] == PagePath(folder, names[i])
  {
    if names == [] then [] else [PagePath(folder, names[0])] + InFolder(folder, names[1..])
  }

  /** The page list of line 23-27: filter, prefix, sort. */
  function Pages(folder: string, listing: seq<string>): (r: seq<string>)
    ensures Sorted(r)
    ensures multiset(r) == multiset(InFolder(folder, Images(listing)))
  {
    Sort(InFolder(folder, Images(listing)))
  }

  /**
   One run of the generator. `isDir` stands for the directory test on
   `folder` and `listing` for the names the directory lists, in whatever
   order the file system returns them.
   */
  function Generate(isDir: bool, folder: string, listing: seq<string>, title: string): (r: Outcome)
    ensures r == FolderMissing <==> !isDir
    ensures r == NoImages <==> isDir && forall f :: f in listing ==> !IsImage(f)
    ensures r.Success? ==> r.manifest.title == title
    ensures r.Success? ==> Sorted(r.manifest.pages)
    ensures r.Success? ==> multiset(r.manifest.pages) == multiset(InFolder(folder, Images(listing)))
  {
    if !isDir then FolderMissing
    else
      var images := Pages(folder, listing);
      PagesEmpty(folder, listing);
      if images == [] then NoImages else Success(Manifest(title, images))
  }

  /** The page list is empty exactly when no listed name is an image. */
  lemma PagesEmpty(folder: string, listing: seq<string>)
    ensures Pages(folder, listing) == [] <==> forall f :: f in listing ==> !IsImage(f)
  {
    var img := Images(listing);
    assert |Pages(folder, listing)| == |multiset(Pages(folder, listing))| == |InFolder(folder, img)| == |img|;
    if img != [] {
      assert multiset(img)[img[0]] > 0;
    }
    forall f | f in listing && IsImage(f) ensures img != [] {
      assert multiset(listing)[f] > 0;
    }
  }

  /** The success message: page count, title, first and last page. */
  function Summarize(m: Manifest): (r: Report)
    requires m.pages != []
    ensures r.count == |m.pages| && r.title == m.title
    ensures r.first in m.pages && r.last in m.pages
    ensures Sorted(m.pages) ==> forall p :: p in m.pages ==> LexLessEq(r.first, p) && LexLessEq(p, r.last)
  {
    assert Sorted(m.pages) ==> forall p :: p in m.pages ==> LexLessEq(m.pages[0], p) && LexLessEq(p, m.pages[|m.pages| - 1]) by {
      if Sorted(m.pages) { SortedEnds(m.pages); }
    }
    Report(|m.pages|, m.title, m.pages[0], m.pages[|m.pages| - 1])
  }

  /** Whether a name is a page does not depend on the case of its letters. */
  lemma IsImageIgnoresCase(f: string, g: string)
    requires Lower(f) == Lower(g)
    ensures IsImage(f) <==> IsImage(g)
  {
    ExtensionOfLower(f);
    ExtensionOfLower(g);
    LowerIdempotent(Extension(f));
    LowerIdempotent(Extension(g));
    assert Lower(Extension(f)) == Lower(Extension(Lower(f))) == Lower(Extension(g));
  }

  /** `PagePath` is injective in the name: the folder prefix can be stripped again. */
  lemma PagePathInjective(folder: string, a: string, b: string)
    requires PagePath(folder, a) == PagePath(folder, b)
    ensures a == b
  {
    var n := |folder + "/"|;
    assert a == PagePath(folder, a)[n..];
    assert b == PagePath(folder, b)[n..];
  }

  /** Prefixing with the folder keeps a sorted sequence sorted. */
  lemma InFolderSorted(folder: string, names: seq<string>)
    requires Sorted(names)
    ensures Sorted(InFolder(folder, names))
  {
    var r := InFolder(folder, names);
    forall i, j | 0 <= i < j < |r| ensures LexLessEq(r[i], r[j]) {
      LexCommonPrefix(folder + "/", names[i], names[j]);
      assert r[i] == (folder + "/") + names[i];
      assert r[j] == (folder + "/") + names[j];
    }
  }

  /** Inserting a prefixed name into prefixed names is prefixing the insertion. */
  lemma {:induction false} InFolderInsert(folder: string, x: string, s: seq<string>)
    requires Sorted(s)
    ensures Sorted(InFolder(folder, s))
    ensures Insert(PagePath(folder, x), InFolder(folder, s)) == InFolder(folder, Insert(x, s))
  {
    InFolderSorted(folder, s);
    if s != [] {
      var p := folder + "/";
      LexCommonPrefix(p, x, s[0]);
      assert PagePath(folder, x) == p + x;
      assert InFolder(folder, s)[0] == p + s[0];
      if !LexLessEq(x, s[0]) {
        InFolderInsert(folder, x, s[1..]);
        assert InFolder(folder, s)[1..] == InFolder(folder, s[1..]);
        assert InFolder(folder, [s[0]] + Insert(x, s[1..])) == [PagePath(folder, s[0])] + InFolder(folder, Insert(x, s[1..]));
      }
    }
  }

  /** Sorting the prefixed names gives the prefixed sorted names: the order is that of the bare names. */
  lemma {:induction false} SortInFolder(folder: string, names: seq<string>)
    ensures Sort(InFolder(folder, names)) == InFolder(folder, Sort(names))
  {
    if names != [] {
      SortInFolder(folder, names[1..]);
      assert InFolder(folder, names)[1..] == InFolder(folder, names[1..]);
      InFolderInsert(folder, names[0], Sort(names[1..]));
    }
  }

  /** The pages are the image names sorted on their own, then prefixed. */
  lemma PagesOrderedByName(folder: string, listing: seq<string>)
    ensures Pages(folder, listing) == InFolder(folder, Sort(Images(listing)))
  {
    SortInFolder(folder, Images(listing));
  }

  /** A name is among the sorted images exactly when it is listed and is an image. */
  lemma SortedImagesMembers(listing: seq<string>, f: string)
    ensures f in Sort(Images(listing)) <==> f in listing && IsImage(f)
  {
  }

  /** Soundness: every page is the folder path of a listed image name. */
  lemma PagesSound(isDir: bool, folder: string, listing: seq<string>, title: string)
    requires Generate(isDir, folder, listing, title).Success?
    ensures forall p :: p in Generate(isDir, folder, listing, title).manifest.pages ==>
      exists f :: f in listing && IsImage(f) && p == PagePath(folder, f)
  {
    var pages := Generate(isDir, folder, listing, title).manifest.pages;
    PagesOrderedByName(folder, listing);
    var sorted := Sort(Images(listing));
    assert pages == InFolder(folder, sorted);
    forall p | p in pages ensures exists f :: f in listing && IsImage(f) && p == PagePath(folder, f) {
      var i :| 0 <= i < |pages| && pages[i] == p;
      SortedImagesMembers(listing, sorted[i]);
    }
  }

  /**
   Completeness: a listed name appears, prefixed, among the pages exactly
   when its lower-cased extension is supported.
   */
  lemma PagesComplete(isDir: bool, folder: string, listing: seq<string>, title: string)
    requires Generate(isDir, folder, listing, title).Success?
    ensures forall f :: f in listing ==>
      (PagePath(folder, f) in Generate(isDir, folder, listing, title).manifest.pages <==> IsImage(f))
  {
    var pages := Generate(isDir, folder, listing, title).manifest.pages;
    PagesOrderedByName(folder, listing);
    var sorted := Sort(Images(listing));
    assert pages == InFolder(folder, sorted);
    forall f | f in listing
      ensures PagePath(folder, f) in pages <==> IsImage(f)
    {
      SortedImagesMembers(listing, f);
      if IsImage(f) {
        var i :| 0 <= i < |sorted| && sorted[i] == f;
        assert pages[i] == PagePath(folder, f);
      }
      if PagePath(folder, f) in pages {
        var i :| 0 <= i < |pages| && pages[i] == PagePath(folder, f);
        PagePathInjective(folder, f, sorted[i]);
      }
    }
  }

  /** On success the page count is the number of listed image names, counted with repetition. */
  lemma PageCount(isDir: bool, folder: string, listing: seq<string>, title: string)
    requires Generate(isDir, folder, listing, title).Success?
    ensures |Generate(isDir, folder, listing, title).manifest.pages| == |Images(listing)|
    ensures Summarize(Generate(isDir, folder, listing, title).manifest).count == |Images(listing)|
  {
    var m := Generate(isDir, folder, listing, title).manifest;
    assert |m.pages| == |multiset(m.pages)| == |multiset(InFolder(folder, Images(listing)))|;
  }

  /** The reported first and last pages are the least and the greatest page. */
  lemma ReportedEnds(isDir: bool, folder: string, listing: seq<string>, title: string)
    requires Generate(isDir, folder, listing, title).Success?
    ensures var m := Generate(isDir, folder, listing, title).manifest;
      var r := Summarize(m);
      r.title == title &&
      forall p :: p in m.pages ==> LexLessEq(r.first, p) && LexLessEq(p, r.last)
  {
  }

  /** The outcome depends only on which names are listed, not on the order of the listing. */
  lemma ListingOrderIrrelevant(isDir: bool, folder: string, a: seq<string>, b: seq<string>, title: string)
    requires multiset(a) == multiset(b)
    ensures Generate(isDir, folder, a, title) == Generate(isDir, folder, b, title)
  {
    var ia, ib := Images(a), Images(b);
    assert forall x :: multiset(ia)[x] == multiset(ib)[x];
    assert multiset(ia) == multiset(ib);
    SortedUnique(Sort(ia), Sort(ib));
    PagesOrderedByName(folder, a);
    PagesOrderedByName(folder, b);
    assert Pages(folder, a) == Pages(folder, b);
  }

  /** The pages are the only sorted arrangement of the prefixed image names. */
  lemma PagesUnique(isDir: bool, folder: string, listing: seq<string>, title: string, pages: seq<string>)
    requires Generate(isDir, folder, listing, title).Success?
    requires Sorted(pages) && multiset(pages) == multiset(InFolder(folder, Images(listing)))
    ensures Generate(isDir, folder, listing, title).manifest.pages == pages
  {
    SortedUnique(Generate(isDir, folder, listing, title).manifest.pages, pages);
  }
}
