/**
 * The helpers of the `upload` command (src/commands/upload.rs): a second
 * copy of the package-name parser that reports `UploadError`, and an older
 * local listing that keeps each file's raw bytes and applies no
 * structural exclusions.
 */
module UploadCommand {
  import opened Common
  import SiteName
  import LocalFiles
  import Fingerprint

  /** The variants of `UploadError` these helpers can produce. */
  datatype UploadError = PackageNotFound | IOError(error: IoError)

  /** The `File` record of the older listing: a relative name and the full content. */
  datatype File = File(fileName: string, content: seq<byte>)

  /**
   * `get_site`: the same scan as `get_site_name_from_ftd` over the same
   * text, with open and read failures reported as `IOError`.
   */
  method GetSite(file: SiteName.FtdFile) returns (r: Result<string, UploadError>)
    ensures file.CantOpen? || file.CantRead? ==> r == Err(IOError(file.error))
    ensures file.Text? ==>
              match SiteName.PackageNameIn(SiteName.Lines(file.text))
              case Some(name) => r == Ok(name)
              case None => r == Err(PackageNotFound)
  {
    match file
    case CantOpen(e) => r := Err(IOError(e));
    case CantRead(e) => r := Err(IOError(e));
    case Text(text) =>
      var packageName := SiteName.FindPackageName(text);
      r := match packageName
           case Some(name) => Ok(name)
           case None => Err(PackageNotFound);
  }

  /** What one walk item contributes to the `files` vector of the older `get_local_files`. */
  function OldItemListing(root: string, item: LocalFiles.WalkItem): (r: Result<seq<File>, UploadError>)
    ensures r.Ok? ==> |r.value| <= 1 && forall f :: f in r.value ==> LocalFiles.IsRelative(f.fileName)
    ensures r.Err? ==> item.Entry? && item.read.ReadFailed? && r.error == IOError(item.read.error)
  {
    match item
    case WalkError => Ok([])
    case Entry(path, isDir, read) =>
      if isDir then Ok([])
      else
        match read
        case ReadFailed(e) => Err(IOError(e))
        case Read(content) => Ok([File(LocalFiles.Relativize(path, root), content)])
  }

  /** Reference listing of the older variant, item by item from the front. */
  function OldListing(root: string, walk: seq<LocalFiles.WalkItem>): (r: Result<seq<File>, UploadError>)
    ensures r.Ok? ==> |r.value| <= |walk| && forall f :: f in r.value ==> LocalFiles.IsRelative(f.fileName)
  {
    if walk == [] then Ok([])
    else LocalFiles.Then(OldItemListing(root, walk[0]), OldListing(root, walk[1..]))
  }

  /** The older `get_local_files` over the output of the walk. */
  method GetLocalFiles(root: string, walk: seq<LocalFiles.WalkItem>) returns (r: Result<seq<File>, UploadError>)
    ensures r == OldListing(root, walk)
  {
    var files: seq<File> := [];
    var i := 0;
    assert walk[0..] == walk;
    LocalFiles.PrependEmpty(OldListing(root, walk));
    while i < |walk|
      invariant 0 <= i <= |walk|
      invariant OldListing(root, walk) == LocalFiles.Prepend(files, OldListing(root, walk[i..]))
    {
      assert walk[i..][0] == walk[i] && walk[i..][1..] == walk[i + 1..];
      ghost var rest := OldListing(root, walk[i + 1..]);
      LocalFiles.PrependEmpty(rest);
      match walk[i] {
        case WalkError =>
        case Entry(path, isDir, read) =>
          if !isDir {
            match read {
              case ReadFailed(e) =>
                return Err(IOError(e));
              case Read(content) =>
                var name := LocalFiles.Relativize(path, root);
                LocalFiles.PrependAssoc(files, [File(name, content)], rest);
                files := files + [File(name, content)];
            }
          }
      }
      i := i + 1;
    }
    assert walk[i..] == [];
    assert files + [] == files;
    return Ok(files);
  }

  // ---------------------------------------------------------------------
  // Properties of the older listing
  // ---------------------------------------------------------------------

  /** A non-directory entry that was read: every one of them is listed. */
  predicate IsReadFile(item: LocalFiles.WalkItem)
  {
    item.Entry? && !item.isDir && item.read.Read?
  }

  /**
   * One walk item on its own: every readable file, `.git/` and `.gitignore`
   * included, gives one record with its full bytes; directories and walker
   * errors give none; a failed open or read aborts.
   */
  lemma OldItemListingCases(root: string, item: LocalFiles.WalkItem)
    ensures LocalFiles.Unreadable(item) <==> OldItemListing(root, item).Err?
    ensures LocalFiles.Unreadable(item) ==> OldItemListing(root, item) == Err(IOError(item.read.error))
    ensures IsReadFile(item) ==>
              OldItemListing(root, item) == Ok([File(LocalFiles.Relativize(item.path, root), item.read.bytes)])
    ensures item.WalkError? || (item.Entry? && item.isDir) ==> OldItemListing(root, item) == Ok([])
  {
  }

  /** The older listing fails exactly when some file cannot be read, with the first such error. */
  lemma {:induction false} OldListingFailure(root: string, walk: seq<LocalFiles.WalkItem>)
    ensures OldListing(root, walk).Ok? <==> forall i :: 0 <= i < |walk| ==> !LocalFiles.Unreadable(walk[i])
    ensures forall i :: LocalFiles.IsFirstFailure(walk, i) ==> OldListing(root, walk) == Err(IOError(walk[i].read.error))
  {
    if walk != [] {
      OldListingFailure(root, walk[1..]);
      OldItemListingCases(root, walk[0]);
      if LocalFiles.Unreadable(walk[0]) {
        forall i | LocalFiles.IsFirstFailure(walk, i) ensures i == 0 { }
      } else {
        forall i | LocalFiles.IsFirstFailure(walk, i) ensures LocalFiles.IsFirstFailure(walk[1..], i - 1) {
          assert i != 0;
        }
        forall i | 0 <= i < |walk[1..]| && LocalFiles.Unreadable(walk[1..][i])
          ensures exists j :: 0 <= j < |walk| && LocalFiles.Unreadable(walk[j])
        {
          assert walk[i + 1] == walk[1..][i];
        }
      }
    }
  }

  /** Listing a concatenated walk concatenates the older listings, in walk order. */
  lemma {:induction false} OldListingAppend(root: string, a: seq<LocalFiles.WalkItem>, b: seq<LocalFiles.WalkItem>)
    ensures OldListing(root, a + b) == LocalFiles.Then(OldListing(root, a), OldListing(root, b))
  {
    if a == [] {
      assert a + b == b;
      LocalFiles.PrependEmpty(OldListing(root, b));
    } else {
      assert (a + b)[0] == a[0] && (a + b)[1..] == a[1..] + b;
      OldListingAppend(root, a[1..], b);
      LocalFiles.ThenAssoc(OldItemListing(root, a[0]), OldListing(root, a[1..]), OldListing(root, b));
    }
  }

  /** The records of the older listing that survive the structural exclusions. */
  function Unexcluded(files: seq<File>): seq<File>
  {
    if files == [] then []
    else if LocalFiles.IsExcluded(files[0].fileName) then Unexcluded(files[1..])
    else [files[0]] + Unexcluded(files[1..])
  }


  function DescribeAll(files: seq<File>, sha256: seq<byte> -> Fingerprint.Digest): seq<LocalFiles.ContentToUpload>
  {
    if files == [] then [] else [LocalFiles.Record(files[0].fileName, files[0].content, sha256)] + DescribeAll(files[1..], sha256)
  }

  lemma {:induction false} UnexcludedAppend(a: seq<File>, b: seq<File>)
    ensures Unexcluded(a + b) == Unexcluded(a) + Unexcluded(b)
  {
    if a == [] {
      assert a + b == b;
    } else {
      assert (a + b)[0] == a[0] && (a + b)[1..] == a[1..] + b;
      UnexcludedAppend(a[1..], b);
    }
  }

  lemma {:induction false} DescribeAllAppend(a: seq<File>, b: seq<File>, sha256: seq<byte> -> Fingerprint.Digest)
    ensures DescribeAll(a + b, sha256) == DescribeAll(a, sha256) + DescribeAll(b, sha256)
  {
    if a == [] {
      assert a + b == b;
    } else {
      assert (a + b)[0] == a[0] && (a + b)[1..] == a[1..] + b;
      DescribeAllAppend(a[1..], b, sha256);
    }
  }

  /**
   * The current listing is the older one with the structural exclusions
   * applied and each file's bytes replaced by their hash and size; both fail
   * on the same walks, with the same I/O error.
   */
  lemma {:induction false} ListingRefinesOldListing(root: string, walk: seq<LocalFiles.WalkItem>, sha256: seq<byte> -> Fingerprint.Digest)
    ensures LocalFiles.Listing(root, walk, sha256).Ok? <==> OldListing(root, walk).Ok?
    ensures OldListing(root, walk).Ok? ==>
              LocalFiles.Listing(root, walk, sha256).value == DescribeAll(Unexcluded(OldListing(root, walk).value), sha256)
    ensures OldListing(root, walk).Err? ==>
              OldListing(root, walk).error == IOError(LocalFiles.Listing(root, walk, sha256).error.error)
  {
    if walk != [] {
      ListingRefinesOldListing(root, walk[1..], sha256);
      var item := walk[0];
      LocalFiles.ItemListingCases(root, item, sha256);
      OldItemListingCases(root, item);
      var newRest := LocalFiles.Listing(root, walk[1..], sha256);
      var oldRest := OldListing(root, walk[1..]);
      if oldRest.Ok? {
        if LocalFiles.Kept(root, item) {
          var f := File(LocalFiles.Relativize(item.path, root), item.read.bytes);
          UnexcludedAppend([f], oldRest.value);
          DescribeAllAppend([f], Unexcluded(oldRest.value), sha256);
          assert Unexcluded([f]) == [f];
          assert DescribeAll([f], sha256) == [LocalFiles.Record(f.fileName, f.content, sha256)];
        } else if IsReadFile(item) {
          var f := File(LocalFiles.Relativize(item.path, root), item.read.bytes);
          UnexcludedAppend([f], oldRest.value);
          assert Unexcluded([f]) == [];
        }
        if !LocalFiles.Unreadable(item) && !LocalFiles.Kept(root, item) {
          assert [] + newRest.value == newRest.value;
          assert [] + oldRest.value == oldRest.value;
        }
      }
    }
  }
}
