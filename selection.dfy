/**
 * Input selection of the converter: which files become pages, in which order.
 * The filesystem queries (`os.path.isdir`, `os.path.isfile`, `os.listdir`)
 * are replaced by a `PathKind` value describing what the input path is.
 */
module Selection {
  import opened Text
  import opened Order

  /** The suffixes of the image-file test, as the tuple passed to `endswith`. */
  const ImageExtensions: seq<string> := [".jpg", ".jpeg", ".png"]

  /** What the filesystem says about the input path. */
  datatype PathKind =
    | Directory(entries: seq<string>)  // `isdir` holds; `entries` is what `listdir` returns, in its order
    | File                             // not a directory, `isfile` holds
    | Other                            // neither, e.g. a path that does not exist

  /** The outcome of input selection: the invalid-input exit, or the ordered file list. */
  datatype Selected = Invalid | Files(paths: seq<string>)

  /** A name qualifies when its lower-cased form ends in `.jpg`, `.jpeg` or `.png`. */
  predicate IsImageName(name: string)
  {
    EndsWithAny(Lower(name), ImageExtensions)
  }

  /** POSIX `os.path.join(dir, name)` (`posixpath.join`) for two components. */
  function Join(dir: string, name: string): string
  {
    if |name| > 0 && name[0] == '/' then name
    else if dir == [] || dir[|dir| - 1] == '/' then dir + name
    else dir + "/" + name
  }

  /** The list comprehension: qualifying entries joined to the directory, in listing order. */
  function ImagePaths(dir: string, entries: seq<string>): seq<string>
  {
    if entries == [] then []
    else (if IsImageName(entries[0]) then [Join(dir, entries[0])] else []) + ImagePaths(dir, entries[1..])
  }

  /** The choice between directory, single image file and invalid input. */
  function SelectFiles(input: string, kind: PathKind): (s: Selected)
    ensures s.Invalid? <==> kind.Other? || (kind.File? && !IsImageName(input))
    ensures kind.File? && IsImageName(input) ==> s == Files([input])
    ensures kind.Directory? ==> s.Files? && Sorted(s.paths)
    ensures kind.Directory? ==> multiset(s.paths) == multiset(ImagePaths(input, kind.entries))
  {
    if kind.Directory? then
      var paths := ImagePaths(input, kind.entries);
      SortCorrect(paths);
      Files(Sort(paths))
    else if kind.File? && IsImageName(input) then Files([input])
    else Invalid
  }

  /** Any name ending in a case variant of `.jpg`, `.jpeg` or `.png` qualifies, e.g. `A.JPG` or `b.Png`. */
  lemma ImageNameFromExtension(stem: string, ext: string)
    requires Lower(ext) in ImageExtensions
    ensures IsImageName(stem + ext)
  {
    LowerConcat(stem, ext);
    var i :| 0 <= i < |ImageExtensions| && ImageExtensions[i] == Lower(ext);
    assert Lower(stem + ext)[|Lower(stem)|..] == Lower(ext);
    assert EndsWith(Lower(stem + ext), ImageExtensions[i]);
  }

  /** Conversely, a qualifying name splits into a stem and a case variant of one of the extensions. */
  lemma ImageNameSplit(name: string) returns (stem: string, ext: string)
    requires IsImageName(name)
    ensures name == stem + ext
    ensures Lower(ext) in ImageExtensions
  {
    var i :| 0 <= i < |ImageExtensions| && EndsWith(Lower(name), ImageExtensions[i]);
    var k := |name| - |ImageExtensions[i]|;
    stem, ext := name[..k], name[k..];
    LowerSuffix(name, k);
    assert Lower(ext) == ImageExtensions[i];
  }

  /** `.JPG` is `.jpg` lower-cased. */
  lemma LowerJpgUpper()
    ensures Lower(".JPG") == ".jpg"
  {
  }

  /** `.Png` is `.png` lower-cased. */
  lemma LowerPngMixed()
    ensures Lower(".Png") == ".png"
  {
  }

  /** Concrete cases: upper- and mixed-case extensions are kept. */
  lemma ImageNameKeptExamples()
    ensures IsImageName("A.JPG") && IsImageName("b.Png")
  {
    assert IsImageName("A.JPG") by {
      assert "A.JPG"[1..] == ".JPG";
      LowerSuffix("A.JPG", 1);
      LowerJpgUpper();
      assert EndsWith(Lower("A.JPG"), ImageExtensions[0]);
    }
    assert IsImageName("b.Png") by {
      assert "b.Png"[1..] == ".Png";
      LowerSuffix("b.Png", 1);
      LowerPngMixed();
      assert EndsWith(Lower("b.Png"), ImageExtensions[2]);
    }
  }

  /** Concrete cases: other extensions, and a bare `png` without the dot, are dropped. */
  lemma ImageNameDroppedExamples()
    ensures !IsImageName("c.gif") && !IsImageName("png")
  {
    assert Lower("c.gif") == "c.gif";
    assert Lower("png") == "png";
  }

  /** The comprehension keeps exactly the joined paths of the qualifying entries. */
  lemma {:induction false} ImagePathsMembers(dir: string, entries: seq<string>, p: string)
    ensures p in ImagePaths(dir, entries) <==>
      exists i :: 0 <= i < |entries| && IsImageName(entries[i]) && p == Join(dir, entries[i])
  {
    if entries != [] {
      ImagePathsMembers(dir, entries[1..], p);
      if exists i :: 0 <= i < |entries| && IsImageName(entries[i]) && p == Join(dir, entries[i]) {
        var i :| 0 <= i < |entries| && IsImageName(entries[i]) && p == Join(dir, entries[i]);
        if i > 0 {
          assert entries[1..][i - 1] == entries[i];
        }
      }
    }
  }

  /** The comprehension is empty exactly when no entry qualifies. */
  lemma {:induction false} ImagePathsEmpty(dir: string, entries: seq<string>)
    ensures ImagePaths(dir, entries) == [] <==> forall i :: 0 <= i < |entries| ==> !IsImageName(entries[i])
  {
    if entries != [] {
      ImagePathsEmpty(dir, entries[1..]);
      assert forall i :: 1 <= i < |entries| ==> entries[i] == entries[1..][i - 1];
    }
  }

  lemma {:induction false} ImagePathsAppend(dir: string, a: seq<string>, b: seq<string>)
    ensures ImagePaths(dir, a + b) == ImagePaths(dir, a) + ImagePaths(dir, b)
  {
    if a == [] {
      assert a + b == b;
    } else {
      assert (a + b)[0] == a[0];
      assert (a + b)[1..] == a[1..] + b;
      ImagePathsAppend(dir, a[1..], b);
    }
  }

  /** Listing the same entries in another order yields the same paths, in another order. */
  lemma {:induction false} ImagePathsPermutation(dir: string, a: seq<string>, b: seq<string>)
    requires multiset(a) == multiset(b)
    ensures multiset(ImagePaths(dir, a)) == multiset(ImagePaths(dir, b))
  {
    if a == [] {
      assert |b| == |multiset(b)| == 0;
    } else {
      assert a[0] in multiset(b);
      var k :| 0 <= k < |b| && b[k] == a[0];
      var rest := b[..k] + b[k + 1..];
      assert b == b[..k] + [a[0]] + b[k + 1..];
      assert multiset(a[1..]) == multiset(rest) by {
        assert a == [a[0]] + a[1..];
        assert multiset(a) == multiset{a[0]} + multiset(a[1..]);
        assert multiset(b) == multiset(b[..k]) + multiset{a[0]} + multiset(b[k + 1..]);
        assert multiset(rest) == multiset(b[..k]) + multiset(b[k + 1..]);
        assert multiset(a[1..]) == multiset(a) - multiset{a[0]};
        assert multiset(rest) == multiset(b) - multiset{a[0]};
      }
      ImagePathsPermutation(dir, a[1..], rest);
      ImagePathsAppend(dir, b[..k] + [a[0]], b[k + 1..]);
      ImagePathsAppend(dir, b[..k], [a[0]]);
      ImagePathsAppend(dir, b[..k], b[k + 1..]);
      ImagePathsAppend(dir, [a[0]], a[1..]);
      assert a == [a[0]] + a[1..];
    }
  }

  /**
   * For a directory the selected list does not depend on the order in which
   * the directory is listed.
   */
  lemma ListingOrderIrrelevant(dir: string, a: seq<string>, b: seq<string>)
    requires multiset(a) == multiset(b)
    ensures SelectFiles(dir, Directory(a)) == SelectFiles(dir, Directory(b))
  {
    ImagePathsPermutation(dir, a, b);
    SortIgnoresOrder(ImagePaths(dir, a), ImagePaths(dir, b));
  }

  /**
   * For a directory, a path is selected exactly when it is the directory
   * joined with a qualifying entry, and nothing is selected exactly when no
   * entry qualifies (the soft exit).
   */
  lemma DirectorySelection(dir: string, entries: seq<string>, p: string)
    ensures p in SelectFiles(dir, Directory(entries)).paths <==>
      exists i :: 0 <= i < |entries| && IsImageName(entries[i]) && p == Join(dir, entries[i])
    ensures SelectFiles(dir, Directory(entries)) == Files([]) <==>
      forall i :: 0 <= i < |entries| ==> !IsImageName(entries[i])
  {
    var s := SelectFiles(dir, Directory(entries));
    assert p in s.paths <==> p in multiset(s.paths);
    ImagePathsMembers(dir, entries, p);
    ImagePathsEmpty(dir, entries);
    assert s.paths == [] <==> |multiset(s.paths)| == 0;
  }

  /**
   * Entry names never start with `/`; for such names, sorting the joined paths
   * orders them as their names, so sorting by full path and by file name agree.
   */
  lemma JoinKeepsNameOrder(dir: string, a: string, b: string)
    requires a == [] || a[0] != '/'
    requires b == [] || b[0] != '/'
    ensures Precedes(Join(dir, a), Join(dir, b)) == Precedes(a, b)
  {
    var prefix := if dir == [] || dir[|dir| - 1] == '/' then dir else dir + "/";
    assert Join(dir, a) == prefix + a;
    assert Join(dir, b) == prefix + b;
    PrecedesCommonPrefix(prefix, a, b);
  }
}
