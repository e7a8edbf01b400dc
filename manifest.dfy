/**
 * Building the list of frames to stack when a folder is chosen: the folder's entries whose
 * lower-cased name ends in an image extension, joined to the folder and sorted ascending.
 * Paths follow POSIX `os.path` rules.
 */
module Manifest {
  import Text
  import Ordering
  import Seqs

  /** The extensions `browse_folder` accepts, compared against the lower-cased file name. */
  const ImageExtensions: seq<string> := [".jpg", ".jpeg", ".png", ".tif", ".tiff"]

  /** `f.lower().endswith(('.jpg', '.jpeg', '.png', '.tif', '.tiff'))`. */
  predicate IsImageName(name: string) {
    exists k :: 0 <= k < |ImageExtensions| && Text.EndsWith(Text.Lower(name), ImageExtensions[k])
  }

  /** Upper-case extensions are accepted; other extensions, and an image extension not at the end, are not. */
  lemma IsImageNameExamples()
    ensures IsImageName("IMG_0001.JPG") && IsImageName("a.Tiff")
    ensures !IsImageName("IMG_0001.CR2") && !IsImageName("a.png.bak")
  {
    var l1 := Text.Lower("IMG_0001.JPG");
    assert l1[8..] == ImageExtensions[0];
    var l2 := Text.Lower("a.Tiff");
    assert l2[1..] == ImageExtensions[4];
    var l3 := Text.Lower("IMG_0001.CR2");
    assert l3[|l3| - 1] == '2';
    assert forall k :: 0 <= k < |ImageExtensions| ==> !Text.EndsWith(l3, ImageExtensions[k]) by {
      forall k | 0 <= k < |ImageExtensions| ensures !Text.EndsWith(l3, ImageExtensions[k]) {
        var e := ImageExtensions[k];
        LastCharDiffers(l3, e);
      }
    }
    var l4 := Text.Lower("a.png.bak");
    assert l4[|l4| - 1] == 'k';
    assert forall k :: 0 <= k < |ImageExtensions| ==> !Text.EndsWith(l4, ImageExtensions[k]) by {
      forall k | 0 <= k < |ImageExtensions| ensures !Text.EndsWith(l4, ImageExtensions[k]) {
        var e := ImageExtensions[k];
        LastCharDiffers(l4, e);
      }
    }
  }

  /** A string does not end with a suffix whose last character differs from its own. */
  lemma LastCharDiffers(s: string, suffix: string)
    requires |s| > 0 && |suffix| > 0 && s[|s| - 1] != suffix[|suffix| - 1]
    ensures !Text.EndsWith(s, suffix)
  {
    if |suffix| <= |s| {
      assert s[|s| - |suffix|..][|suffix| - 1] == s[|s| - 1];
    }
  }

  /** A POSIX absolute path: one that starts with `/`. */
  predicate IsAbsolute(name: string) {
    |name| > 0 && name[0] == '/'
  }

  /**
   * `os.path.join(folder, name)`: an absolute name replaces the folder; otherwise the folder,
   * a `/` unless the folder is empty or already ends with one, then the name.
   */
  function Join(folder: string, name: string): (path: string)
    ensures IsAbsolute(name) ==> path == name
    ensures !IsAbsolute(name) ==> Text.EndsWith(path, name)
    ensures !IsAbsolute(name) && (folder == [] || folder[|folder| - 1] == '/') ==>
      path[..|path| - |name|] == folder
    ensures !IsAbsolute(name) && folder != [] && folder[|folder| - 1] != '/' ==>
      path[..|path| - |name|] == folder + "/"
    ensures !IsAbsolute(name) ==> var dir := path[..|path| - |name|]; dir == [] || dir[|dir| - 1] == '/'
  {
    if IsAbsolute(name) then name
    else if folder == [] || folder[|folder| - 1] == '/' then folder + name
    else folder + "/" + name
  }

  /** A joined path always ends with the name, absolute or not. */
  lemma JoinEndsWith(folder: string, name: string)
    ensures Text.EndsWith(Join(folder, name), name)
  {
    if IsAbsolute(name) {
      assert Join(folder, name)[|Join(folder, name)| - |name|..] == name;
    }
  }

  /** An absolute file name replaces the output folder; a relative one goes inside it. */
  lemma JoinExamples()
    ensures Join("/photos", "/tmp/trail.jpg") == "/tmp/trail.jpg"
    ensures Join("/photos", "trail.jpg") == "/photos/trail.jpg"
    ensures Join("/photos/", "trail.jpg") == "/photos/trail.jpg"
    ensures Join("", "trail.jpg") == "trail.jpg"
  {
    assert IsAbsolute("/tmp/trail.jpg");
    assert !IsAbsolute("trail.jpg");
  }

  /** `os.path.basename(path)`: what follows the last `/`. */
  function Basename(path: string): (name: string)
    ensures '/' !in name
    ensures Text.EndsWith(path, name)
    ensures |name| == |path| || path[|path| - |name| - 1] == '/'
  {
    if path == [] || path[|path| - 1] == '/' then []
    else
      var init := Basename(path[..|path| - 1]);
      init + [path[|path| - 1]]
  }

  /** The last component of a file name joined to a folder is that file name. */
  lemma {:induction false} BasenameOfJoin(folder: string, name: string)
    requires '/' !in name
    ensures Basename(Join(folder, name)) == name
  {
    var prefix := Join(folder, name)[..|Join(folder, name)| - |name|];
    assert Join(folder, name) == prefix + name;
    assert prefix == [] || prefix[|prefix| - 1] == '/';
    BasenameAfterSlash(prefix, name);
  }

  lemma {:induction false} BasenameAfterSlash(prefix: string, name: string)
    requires '/' !in name
    requires prefix == [] || prefix[|prefix| - 1] == '/'
    ensures Basename(prefix + name) == name
    decreases |name|
  {
    if name == [] {
      assert prefix + name == prefix;
    } else {
      var init, last := name[..|name| - 1], name[|name| - 1];
      DropLast(prefix, name);
      assert last != '/';
      BasenameAfterSlash(prefix, init);
    }
  }

  /** Dropping the last character of a two-part text drops it from the second part. */
  lemma DropLast(prefix: string, name: string)
    requires |name| > 0
    ensures var path := prefix + name;
      path[..|path| - 1] == prefix + name[..|name| - 1] && path[|path| - 1] == name[|name| - 1]
    ensures name[..|name| - 1] + [name[|name| - 1]] == name
  {
  }

  /** Every name in `names` joined to `folder`, in the same order. */
  function JoinAll(folder: string, names: seq<string>): (paths: seq<string>)
    ensures |paths| == |names|
    ensures forall k :: 0 <= k < |names| ==> paths[k] == Join(folder, names[k])
  {
    seq(|names|, k requires 0 <= k < |names| => Join(folder, names[k]))
  }

  /**
   * `sorted(os.path.join(folder, f) for f in listing if <f is an image name>)`: the image files
   * of the listing, as paths, in ascending order.
   */
  function ImageManifest(folder: string, listing: seq<string>): (files: seq<string>)
    ensures Ordering.Sorted(files)
    ensures multiset(files) == multiset(JoinAll(folder, Seqs.Filter(listing, IsImageName)))
    ensures |files| == |Seqs.Filter(listing, IsImageName)|
  {
    Ordering.Sort(JoinAll(folder, Seqs.Filter(listing, IsImageName)))
  }

  /** A path is in the manifest exactly when it is the folder joined with an image name of the listing. */
  lemma ManifestMembers(folder: string, listing: seq<string>, path: string)
    ensures path in ImageManifest(folder, listing) <==>
      exists k :: 0 <= k < |listing| && IsImageName(listing[k]) && path == Join(folder, listing[k])
  {
    var names := Seqs.Filter(listing, IsImageName);
    var joined := JoinAll(folder, names);
    assert path in ImageManifest(folder, listing) <==> path in joined by {
      assert path in ImageManifest(folder, listing) <==> path in multiset(ImageManifest(folder, listing));
      assert path in joined <==> path in multiset(joined);
    }
    if path in joined {
      var j :| 0 <= j < |joined| && joined[j] == path;
      Seqs.FilterMembers(listing, IsImageName, names[j]);
      var k :| 0 <= k < |listing| && listing[k] == names[j];
    }
    if exists k :: 0 <= k < |listing| && IsImageName(listing[k]) && path == Join(folder, listing[k]) {
      var k :| 0 <= k < |listing| && IsImageName(listing[k]) && path == Join(folder, listing[k]);
      Seqs.FilterMembers(listing, IsImageName, listing[k]);
      var j :| 0 <= j < |names| && names[j] == listing[k];
      assert joined[j] == path;
    }
  }

  /** `sorted` has only one possible answer: any ascending arrangement of the joined image paths is the manifest. */
  lemma ManifestUnique(folder: string, listing: seq<string>, files: seq<string>)
    requires Ordering.Sorted(files)
    requires multiset(files) == multiset(JoinAll(folder, Seqs.Filter(listing, IsImageName)))
    ensures files == ImageManifest(folder, listing)
  {
    Ordering.SortedUnique(files, ImageManifest(folder, listing));
  }
}
