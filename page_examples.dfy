/**
 Concrete runs of the manifest generator: which names count as pages and
 the manifest built for a small folder.
 */
module PageExamples {
  import opened Strings
  import opened Paths
  import opened Sorting
  import opened GeneratePages

  /** Upper-case extensions match: "PHOTO.JPG" is a page. */
  lemma UpperCaseExtension()
    ensures Extension("PHOTO.JPG") == ".JPG"
    ensures IsImage("PHOTO.JPG")
  {
    var p := "PHOTO.JPG";
    assert StemAt(p, 0, 5);
    assert ExtensionAt(p, 5);
    assert p[5..] == ".JPG";
    assert Lower(".JPG") == ".jpg";
  }

  /** Only the part after the last dot counts: "archive.tar.png" is a page. */
  lemma LastDotCounts()
    ensures Extension("archive.tar.png") == ".png"
    ensures IsImage("archive.tar.png")
  {
    var p := "archive.tar.png";
    assert StemAt(p, 0, 11);
    assert ExtensionAt(p, 11);
    assert p[11..] == ".png";
    assert Lower(".png") == ".png";
  }

  /** "image.png.txt" and "note.txt" end in ".txt" and are not pages. */
  lemma TextIsNotAnImage()
    ensures Extension("image.png.txt") == ".txt"
    ensures !IsImage("image.png.txt")
    ensures Extension("note.txt") == ".txt"
    ensures !IsImage("note.txt")
  {
    var p := "image.png.txt";
    assert StemAt(p, 0, 9);
    assert ExtensionAt(p, 9);
    assert p[9..] == ".txt";
    var q := "note.txt";
    assert StemAt(q, 0, 4);
    assert ExtensionAt(q, 4);
    assert q[4..] == ".txt";
    assert Lower(".txt") == ".txt";
  }

  /** A name that is only leading dots before its last dot has no extension: ".png" is not a page. */
  lemma HiddenFileHasNoExtension()
    ensures Extension(".png") == ""
    ensures !IsImage(".png")
  {
    var p := ".png";
    forall d ensures !ExtensionAt(p, d) {
      if d == 0 {
        assert !HasStem(p, 0);
      } else if 0 < d < 4 {
        assert p[d] != '.';
      }
    }
    assert Lower("") == "";
  }

  /** A one-letter name, a dot and a supported lower-case extension is a page. */
  lemma SimpleImage(name: string, d: int, ext: string)
    requires |name| == d + 1 + |ext| && d > 0
    requires name[d] == '.' && name[d + 1..] == ext && "." + ext in SupportedExtensions
    requires forall k :: 0 <= k < d ==> name[k] != '.' && name[k] != '/'
    ensures Extension(name) == "." + ext
    ensures IsImage(name)
  {
    assert StemAt(name, 0, d);
    assert ExtensionAt(name, d);
    assert name[d..] == "." + ext;
    assert Lower("." + ext) == "." + ext;
  }

  /** Of "b.png", "a.jpg", "c.gif" and "note.txt", the first three are pages, in listing order. */
  lemma SmallFolderImages(listing: seq<string>)
    requires listing == ["b.png", "a.jpg", "c.gif", "note.txt"]
    ensures Images(listing) == ["b.png", "a.jpg", "c.gif"]
  {
    var rest := listing[1..];
    assert listing == ["b.png"] + rest;
    KeepPng(rest);
    SmallFolderRest(rest);
  }

  lemma SmallFolderRest(listing: seq<string>)
    requires listing == ["a.jpg", "c.gif", "note.txt"]
    ensures Images(listing) == ["a.jpg", "c.gif"]
  {
    var rest := listing[1..];
    assert listing == ["a.jpg"] + rest;
    KeepJpg(rest);
    SmallFolderTail(rest);
  }

  lemma SmallFolderTail(listing: seq<string>)
    requires listing == ["c.gif", "note.txt"]
    ensures Images(listing) == ["c.gif"]
  {
    var rest := listing[1..];
    assert listing == ["c.gif"] + rest;
    KeepGif(rest);
    NoteDropped(rest);
  }

  lemma KeepPng(rest: seq<string>)
    ensures Images(["b.png"] + rest) == ["b.png"] + Images(rest)
  {
    assert "." + "png" == ".png";
    KeepImage("b.png", 1, "png", rest);
  }

  lemma KeepJpg(rest: seq<string>)
    ensures Images(["a.jpg"] + rest) == ["a.jpg"] + Images(rest)
  {
    assert "." + "jpg" == ".jpg";
    KeepImage("a.jpg", 1, "jpg", rest);
  }

  lemma KeepGif(rest: seq<string>)
    ensures Images(["c.gif"] + rest) == ["c.gif"] + Images(rest)
  {
    assert "." + "gif" == ".gif";
    KeepImage("c.gif", 1, "gif", rest);
  }

  /** A name made of a stem without dots, a dot and a supported extension is kept by the filter. */
  lemma KeepImage(name: string, d: int, ext: string, rest: seq<string>)
    requires |name| == d + 1 + |ext| && d > 0
    requires name[d] == '.' && name[d + 1..] == ext && "." + ext in SupportedExtensions
    requires forall k :: 0 <= k < d ==> name[k] != '.' && name[k] != '/'
    ensures Images([name] + rest) == [name] + Images(rest)
  {
    SimpleImage(name, d, ext);
    assert ([name] + rest)[1..] == rest;
  }

  /** "note.txt" alone is dropped by the filter. */
  lemma NoteDropped(listing: seq<string>)
    requires listing == ["note.txt"]
    ensures Images(listing) == []
  {
    TextIsNotAnImage();
  }

  /** Sorting "b.png", "a.jpg", "c.gif" puts "a.jpg" first and "c.gif" last. */
  lemma SmallFolderOrder()
    ensures Sort(["b.png", "a.jpg", "c.gif"]) == ["a.jpg", "b.png", "c.gif"]
  {
    var images := ["b.png", "a.jpg", "c.gif"];
    var sorted := ["a.jpg", "b.png", "c.gif"];
    assert LexLessEq(sorted[0], sorted[1]) && LexLessEq(sorted[0], sorted[2]) && LexLessEq(sorted[1], sorted[2]);
    assert Sorted(sorted);
    assert multiset(sorted) == multiset(images);
    SortedUnique(Sort(images), sorted);
  }

  /** Prefixing the sorted names with "books_pages/". */
  lemma SmallFolderPaths(names: seq<string>)
    requires names == ["a.jpg", "b.png", "c.gif"]
    ensures InFolder("books_pages", names) == ["books_pages/a.jpg", "books_pages/b.png", "books_pages/c.gif"]
  {
    var pages := InFolder("books_pages", names);
    assert pages[0] == "books_pages/a.jpg";
    assert pages[1] == "books_pages/b.png";
    assert pages[2] == "books_pages/c.gif";
  }

  /**
   With the default folder and title, a folder listing "b.png", "a.jpg",
   "c.gif" and "note.txt" yields the three images in order.
   */
  lemma SmallFolder(listing: seq<string>)
    requires listing == ["b.png", "a.jpg", "c.gif", "note.txt"]
    ensures Generate(true, DefaultFolder, listing, DefaultTitle)
      == Success(Manifest("My Book", ["books_pages/a.jpg", "books_pages/b.png", "books_pages/c.gif"]))
  {
    SmallFolderImages(listing);
    SmallFolderOrder();
    SmallFolderPaths(Sort(Images(listing)));
    PagesOrderedByName(DefaultFolder, listing);
  }
}
