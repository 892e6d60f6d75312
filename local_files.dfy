/**
 * The local file listing sent with an upload (src/utils/get_local_files.rs).
 *
 * The directory walk itself belongs to a foreign library; here its output is
 * an input sequence of walk items. Each non-directory item is read, its path
 * is made relative to the package root, the structural exclusions
 * (`.git/`, `.github/`, `.gitignore`) are applied, and every kept file
 * becomes a `{file_name, sha256_hash, file_size}` record, in walk order.
 */
module LocalFiles {
  import opened Common
  import Fingerprint

  /** One item of the walk: an `Err` of the walker, or a path with what reading it gave. */
  datatype WalkItem =
    | WalkError
    | Entry(path: string, isDir: bool, read: ReadResult)

  /** `clift::api::ContentToUpload`. */
  datatype ContentToUpload = ContentToUpload(fileName: string, sha256Hash: string, fileSize: nat)

  /** `GetLocalFilesError::CantReadFile(error, full path)`. */
  datatype GetLocalFilesError = CantReadFile(error: IoError, path: string)

  // ---------------------------------------------------------------------
  // Path relativization
  // ---------------------------------------------------------------------

  /** `pat` written `n` times in a row. */
  function Repeat(pat: string, n: nat): string
  {
    if n == 0 then [] else pat + Repeat(pat, n - 1)
  }

  /**
   * `str::trim_start_matches` with a string pattern: strips `pat` from the
   * front as long as it is there. An empty pattern strips nothing.
   */
  function TrimStartMatches(s: string, pat: string): (r: string)
    ensures |r| <= |s|
    ensures pat != [] ==> !StartsWith(r, pat)
    ensures pat == [] ==> r == s
    decreases |s|
  {
    if pat != [] && StartsWith(s, pat) then TrimStartMatches(s[|pat|..], pat) else s
  }

  /** A name with no leading `/`. */
  predicate IsRelative(name: string)
  {
    name == [] || name[0] != '/'
  }

  /** The `file_name` computation: strip the root string (repeatedly), then every leading `/`. */
  function Relativize(path: string, root: string): (name: string)
    ensures IsRelative(name)
  {
    var name := TrimStartMatches(TrimStartMatches(path, root), "/");
    assert name != [] ==> name[..1] == [name[0]];
    name
  }

  /**
   * The structural exclusions of the `file_name` checks: everything inside
   * the top-level `.git` or `.github` directory, and the top-level
   * `.gitignore` file.
   */
  predicate IsExcluded(name: string)
    ensures IsExcluded(name) <==> TopDirectory(name) in {Some(".git"), Some(".github")} || name == ".gitignore"
  {
    TopDirectoryPrefix(name, ".git");
    TopDirectoryPrefix(name, ".github");
    StartsWith(name, ".git/") || StartsWith(name, ".github/") || name == ".gitignore"
  }

  /** The first component of a relative name that has a `/`; `None` for a name without one. */
  function TopDirectory(name: string): Option<string>
  {
    if name == [] then None
    else if name[0] == '/' then Some([])
    else
      match TopDirectory(name[1..])
      case None => None
      case Some(d) => Some([name[0]] + d)
  }

  /** A name lies under directory `d` exactly when it starts with `d` and a `/`. */
  lemma {:induction false} TopDirectoryPrefix(name: string, d: string)
    requires '/' !in d
    ensures TopDirectory(name) == Some(d) <==> StartsWith(name, d + "/")
    decreases d
  {
    if d == [] {
      assert StartsWith(name, d + "/") <==> name != [] && name[0] == '/';
    } else if name == [] {
    } else if name[0] == '/' {
      assert !StartsWith(name, d + "/") by { assert (d + "/")[0] == d[0]; }
    } else {
      TopDirectoryPrefix(name[1..], d[1..]);
      assert d == [d[0]] + d[1..];
      assert forall e: string :: [name[0]] + e == d <==> name[0] == d[0] && e == d[1..];
      assert (d + "/")[1..] == d[1..] + "/";
      assert StartsWith(name, d + "/") <==> name[0] == d[0] && StartsWith(name[1..], d[1..] + "/");
    }
  }

  // ---------------------------------------------------------------------
  // The listing
  // ---------------------------------------------------------------------

  /** The `ContentToUpload` pushed for a kept file: its name, the hash of its bytes and their count. */
  function Record(fileName: string, content: seq<byte>, sha256: seq<byte> -> Fingerprint.Digest): ContentToUpload
  {
    ContentToUpload(fileName, Fingerprint.GenerateHash(sha256, content), |content|)
  }

  /**
   * What every listed record satisfies: a relative name outside the
   * exclusions, and a 64-digit hash.
   */
  predicate IsUploadRecord(f: ContentToUpload)
  {
    IsRelative(f.fileName) && !IsExcluded(f.fileName) && |f.sha256Hash| == 64
  }

  /** `files` pushed in front of what the rest of the walk produces. */
  function Prepend<T, E>(files: seq<T>, rest: Result<seq<T>, E>): Result<seq<T>, E>
  {
    match rest
    case Ok(more) => Ok(files + more)
    case Err(_) => rest
  }

  /** What one walk item contributes to the `files` vector of `get_local_files`. */
  function ItemListing(root: string, item: WalkItem, sha256: seq<byte> -> Fingerprint.Digest)
    : (r: Result<seq<ContentToUpload>, GetLocalFilesError>)
    ensures r.Ok? ==> |r.value| <= 1 && forall f :: f in r.value ==> IsUploadRecord(f)
    ensures r.Err? ==> item.Entry? && item.read.ReadFailed? && r.error == CantReadFile(item.read.error, item.path)
  {
    match item
    case WalkError => Ok([])
    case Entry(path, isDir, read) =>
      if isDir then Ok([])
      else
        match read
        case ReadFailed(e) => Err(CantReadFile(e, path))
        case Read(content) =>
          if IsExcluded(Relativize(path, root)) then Ok([]) else Ok([Record(Relativize(path, root), content, sha256)])
  }

  /** `x` then `y`: the first failure wins, otherwise the two listings concatenate. */
  function Then<T, E>(x: Result<seq<T>, E>, y: Result<seq<T>, E>): Result<seq<T>, E>
  {
    match x
    case Err(_) => x
    case Ok(xs) => Prepend(xs, y)
  }

  /** Reference listing of a walk, item by item from the front. */
  function Listing(root: string, walk: seq<WalkItem>, sha256: seq<byte> -> Fingerprint.Digest)
    : (r: Result<seq<ContentToUpload>, GetLocalFilesError>)
    ensures r.Ok? ==> |r.value| <= |walk| && forall f :: f in r.value ==> IsUploadRecord(f)
  {
    if walk == [] then Ok([])
    else Then(ItemListing(root, walk[0], sha256), Listing(root, walk[1..], sha256))
  }

  /** `get_local_files` over the output of the walk. */
  method GetLocalFiles(root: string, walk: seq<WalkItem>, sha256: seq<byte> -> Fingerprint.Digest)
    returns (r: Result<seq<ContentToUpload>, GetLocalFilesError>)
    ensures r == Listing(root, walk, sha256)
  {
    var files: seq<ContentToUpload> := [];
    var i := 0;
    assert walk[0..] == walk;
    PrependEmpty(Listing(root, walk, sha256));
    while i < |walk|
      invariant 0 <= i <= |walk|
      invariant Listing(root, walk, sha256) == Prepend(files, Listing(root, walk[i..], sha256))
    {
      assert walk[i..][0] == walk[i] && walk[i..][1..] == walk[i + 1..];
      ghost var rest := Listing(root, walk[i + 1..], sha256);
      PrependEmpty(rest);
      match walk[i] {
        case WalkError =>
        case Entry(path, isDir, read) =>
          if !isDir {
            match read {
              case ReadFailed(e) =>
                return Err(CantReadFile(e, path));
              case Read(content) =>
                var name := Relativize(path, root);
                if !IsExcluded(name) {
                  var entry := Record(name, content, sha256);
                  PrependAssoc(files, [entry], rest);
                  files := files + [entry];
                }
            }
          }
      }
      i := i + 1;
    }
    assert walk[i..] == [];
    assert files + [] == files;
    return Ok(files);
  }

  lemma PrependEmpty<T, E>(rest: Result<seq<T>, E>)
    ensures Prepend([], rest) == rest
  {
    if rest.Ok? {
      assert [] + rest.value == rest.value;
    }
  }

  lemma PrependAssoc<T, E>(xs: seq<T>, ys: seq<T>, rest: Result<seq<T>, E>)
    ensures Prepend(xs, Prepend(ys, rest)) == Prepend(xs + ys, rest)
  {
    if rest.Ok? {
      assert xs + (ys + rest.value) == (xs + ys) + rest.value;
    }
  }

  // ---------------------------------------------------------------------
  // Properties of the listing
  // ---------------------------------------------------------------------

  /** A non-directory entry whose read failed. */
  predicate Unreadable(item: WalkItem)
  {
    item.Entry? && !item.isDir && item.read.ReadFailed?
  }

  /** A non-directory entry that was read and whose relative name is not excluded. */
  predicate Kept(root: string, item: WalkItem)
  {
    item.Entry? && !item.isDir && item.read.Read? && !IsExcluded(Relativize(item.path, root))
  }

  /** One walk item on its own: a failed read aborts, a kept file gives its record, anything else nothing. */
  lemma ItemListingCases(root: string, item: WalkItem, sha256: seq<byte> -> Fingerprint.Digest)
    ensures Unreadable(item) <==> ItemListing(root, item, sha256).Err?
    ensures Unreadable(item) ==> ItemListing(root, item, sha256) == Err(CantReadFile(item.read.error, item.path))
    ensures Kept(root, item) ==>
              ItemListing(root, item, sha256) == Ok([Record(Relativize(item.path, root), item.read.bytes, sha256)])
    ensures !Unreadable(item) && !Kept(root, item) ==> ItemListing(root, item, sha256) == Ok([])
  {
  }

  predicate IsFirstFailure(walk: seq<WalkItem>, i: int)
  {
    0 <= i < |walk| && Unreadable(walk[i]) && forall j :: 0 <= j < i ==> !Unreadable(walk[j])
  }

  /**
   * The listing fails exactly when some file cannot be read, and then with
   * the first such file's error and full path; this holds even when that
   * path would have been excluded, because the read comes first.
   */
  lemma {:induction false} ListingFailure(root: string, walk: seq<WalkItem>, sha256: seq<byte> -> Fingerprint.Digest)
    ensures Listing(root, walk, sha256).Ok? <==> forall i :: 0 <= i < |walk| ==> !Unreadable(walk[i])
    ensures forall i :: IsFirstFailure(walk, i) ==>
              Listing(root, walk, sha256) == Err(CantReadFile(walk[i].read.error, walk[i].path))
  {
    if walk != [] {
      ListingFailure(root, walk[1..], sha256);
      ItemListingCases(root, walk[0], sha256);
      if Unreadable(walk[0]) {
        forall i | IsFirstFailure(walk, i) ensures i == 0 { }
      } else {
        forall i | IsFirstFailure(walk, i) ensures IsFirstFailure(walk[1..], i - 1) {
          assert i != 0;
        }
        forall i | 0 <= i < |walk[1..]| && Unreadable(walk[1..][i])
          ensures exists j :: 0 <= j < |walk| && Unreadable(walk[j])
        {
          assert walk[i + 1] == walk[1..][i];
        }
      }
    }
  }

  lemma ThenAssoc<T, E>(x: Result<seq<T>, E>, y: Result<seq<T>, E>, z: Result<seq<T>, E>)
    ensures Then(x, Then(y, z)) == Then(Then(x, y), z)
  {
    if x.Ok? && y.Ok? {
      PrependAssoc(x.value, y.value, z);
    }
  }

  /** Listing a concatenated walk concatenates the two listings, in order; the first failure wins. */
  lemma {:induction false} ListingAppend(root: string, a: seq<WalkItem>, b: seq<WalkItem>, sha256: seq<byte> -> Fingerprint.Digest)
    ensures Listing(root, a + b, sha256) == Then(Listing(root, a, sha256), Listing(root, b, sha256))
  {
    if a == [] {
      assert a + b == b;
      PrependEmpty(Listing(root, b, sha256));
    } else {
      assert (a + b)[0] == a[0] && (a + b)[1..] == a[1..] + b;
      ListingAppend(root, a[1..], b, sha256);
      ThenAssoc(ItemListing(root, a[0], sha256), Listing(root, a[1..], sha256), Listing(root, b, sha256));
    }
  }

  /** A walk of one item lists as that item alone. */
  lemma ListingSingleton(root: string, item: WalkItem, sha256: seq<byte> -> Fingerprint.Digest)
    ensures Listing(root, [item], sha256) == ItemListing(root, item, sha256)
  {
    assert [item][1..] == [];
    var x := ItemListing(root, item, sha256);
    if x.Ok? {
      assert x.value + [] == x.value;
    }
  }

  /** Directories and walker errors leave no trace: removing one from the walk changes nothing. */
  lemma DroppedItems(root: string, a: seq<WalkItem>, x: WalkItem, b: seq<WalkItem>, sha256: seq<byte> -> Fingerprint.Digest)
    requires x.WalkError? || (x.Entry? && x.isDir)
    ensures Listing(root, a + [x] + b, sha256) == Listing(root, a + b, sha256)
  {
    ListingAppend(root, a + [x], b, sha256);
    ListingAppend(root, a, [x], sha256);
    ListingAppend(root, a, b, sha256);
    ListingSingleton(root, x, sha256);
    var la := Listing(root, a, sha256);
    if la.Ok? {
      assert la.value + [] == la.value;
    }
  }

  /**
   * Every record comes from a kept file of the walk: its name is that file's
   * relative path, which has no leading `/` and is not excluded, its size is
   * the number of bytes read and its hash is `generate_hash` of those bytes.
   */
  lemma {:induction false} ListingSound(root: string, walk: seq<WalkItem>, sha256: seq<byte> -> Fingerprint.Digest)
    requires Listing(root, walk, sha256).Ok?
    ensures forall f :: f in Listing(root, walk, sha256).value ==>
              (f.fileName == [] || f.fileName[0] != '/') && !IsExcluded(f.fileName)
              && exists i :: 0 <= i < |walk| && Kept(root, walk[i])
                             && f == Record(Relativize(walk[i].path, root), walk[i].read.bytes, sha256)
  {
    if walk != [] {
      ItemListingCases(root, walk[0], sha256);
      ListingSound(root, walk[1..], sha256);
      forall f | f in Listing(root, walk[1..], sha256).value
        ensures exists i :: 0 <= i < |walk| && Kept(root, walk[i])
                            && f == Record(Relativize(walk[i].path, root), walk[i].read.bytes, sha256)
      {
        var i :| 0 <= i < |walk[1..]| && Kept(root, walk[1..][i])
                 && f == Record(Relativize(walk[1..][i].path, root), walk[1..][i].read.bytes, sha256);
        assert walk[i + 1] == walk[1..][i];
      }
    }
  }

  /** Every kept file of the walk has its record in the listing. */
  lemma {:induction false} ListingComplete(root: string, walk: seq<WalkItem>, sha256: seq<byte> -> Fingerprint.Digest)
    requires Listing(root, walk, sha256).Ok?
    ensures forall i :: 0 <= i < |walk| && Kept(root, walk[i]) ==>
              Record(Relativize(walk[i].path, root), walk[i].read.bytes, sha256) in Listing(root, walk, sha256).value
  {
    if walk != [] {
      ListingCons(root, walk, sha256);
      var head := ItemListing(root, walk[0], sha256).value;
      var tail := Listing(root, walk[1..], sha256).value;
      ItemListingCases(root, walk[0], sha256);
      ListingComplete(root, walk[1..], sha256);
      forall i | 0 <= i < |walk| && Kept(root, walk[i])
        ensures Record(Relativize(walk[i].path, root), walk[i].read.bytes, sha256) in head + tail
      {
        if i > 0 {
          assert walk[1..][i - 1] == walk[i];
        }
      }
    }
  }

  /** A successful listing is the first item's records followed by the rest's. */
  lemma ListingCons(root: string, walk: seq<WalkItem>, sha256: seq<byte> -> Fingerprint.Digest)
    requires walk != [] && Listing(root, walk, sha256).Ok?
    ensures ItemListing(root, walk[0], sha256).Ok? && Listing(root, walk[1..], sha256).Ok?
    ensures Listing(root, walk, sha256).value
            == ItemListing(root, walk[0], sha256).value + Listing(root, walk[1..], sha256).value
  {
  }

  // ---------------------------------------------------------------------
  // Properties of relativization
  // ---------------------------------------------------------------------

  /** The root is removed as many times as it repeats at the front, and no more. */
  lemma {:induction false} TrimStartMatchesRepeat(pat: string, n: nat, rest: string)
    requires pat != [] && !StartsWith(rest, pat)
    ensures TrimStartMatches(Repeat(pat, n) + rest, pat) == rest
  {
    if n == 0 {
      assert Repeat(pat, 0) + rest == rest;
    } else {
      var s := Repeat(pat, n) + rest;
      assert s == pat + (Repeat(pat, n - 1) + rest);
      assert StartsWith(s, pat);
      assert s[|pat|..] == Repeat(pat, n - 1) + rest;
      TrimStartMatchesRepeat(pat, n - 1, rest);
    }
  }

  /** What `TrimStartMatches` removes is always whole copies of the pattern. */
  lemma TrimStartMatchesRemovesCopies(s: string, pat: string)
    ensures exists n: nat :: s == Repeat(pat, n) + TrimStartMatches(s, pat)
  {
    var n := CopiesRemoved(s, pat);
  }

  lemma {:induction false} CopiesRemoved(s: string, pat: string) returns (n: nat)
    ensures s == Repeat(pat, n) + TrimStartMatches(s, pat)
    decreases |s|
  {
    if pat != [] && StartsWith(s, pat) {
      var m := CopiesRemoved(s[|pat|..], pat);
      n := m + 1;
      calc {
        s;
        pat + s[|pat|..];
        pat + (Repeat(pat, m) + TrimStartMatches(s[|pat|..], pat));
        (pat + Repeat(pat, m)) + TrimStartMatches(s, pat);
      }
    } else {
      n := 0;
      assert Repeat(pat, 0) + s == s;
    }
  }

  /**
   * A file `rel` below the root, reached through `n >= 1` copies of the root
   * string, is named `rel`: a directory whose path repeats the root's own
   * string is swallowed along with it.
   */
  lemma RelativizeRepeatedRoot(root: string, n: nat, rel: string)
    requires root != [] && n >= 1
    requires rel == [] || rel[0] != '/'
    requires !StartsWith("/" + rel, root)
    ensures Relativize(Repeat(root, n) + "/" + rel, root) == rel
  {
    assert Repeat(root, n) + "/" + rel == Repeat(root, n) + ("/" + rel);
    TrimStartMatchesRepeat(root, n, "/" + rel);
    assert "/" + rel == Repeat("/", 1) + rel;
    if rel != [] {
      assert rel[..1] == [rel[0]];
    }
    TrimStartMatchesRepeat("/", 1, rel);
  }

  /** `root/a/b.txt` is named `a/b.txt`, whether or not the root string ends in `/`. */
  lemma RelativizeChild(root: string, rel: string)
    requires root != [] && (rel == [] || rel[0] != '/')
    requires !StartsWith("/" + rel, root) && !StartsWith(rel, root + "/")
    ensures Relativize(root + "/" + rel, root) == rel
    ensures Relativize(root + "/" + rel, root + "/") == rel
  {
    assert Repeat(root, 1) == root;
    RelativizeRepeatedRoot(root, 1, rel);
    var slashed := root + "/";
    assert root + "/" + rel == Repeat(slashed, 1) + rel;
    TrimStartMatchesRepeat(slashed, 1, rel);
    if rel != [] {
      assert rel[..1] == [rel[0]];
    }
    assert !StartsWith(rel, "/");
  }

  /** With root `/site`, `/site/site/index.ftd` and `/site/index.ftd` get the same name. */
  lemma RepeatedRootCollision()
    ensures Relativize("/site/site/index.ftd", "/site") == "index.ftd"
    ensures Relativize("/site/index.ftd", "/site") == "index.ftd"
  {
    NestedRootName();
    DirectRootName();
  }

  lemma NestedRootName()
    ensures Relativize("/site/site/index.ftd", "/site") == "index.ftd"
  {
    assert "/index.ftd"[..5][1] != "/site"[1];
    assert Repeat("/site", 2) == "/site/site" by {
      assert Repeat("/site", 1) == "/site";
    }
    assert Repeat("/site", 2) + "/" + "index.ftd" == "/site/site/index.ftd";
    RelativizeRepeatedRoot("/site", 2, "index.ftd");
  }

  lemma DirectRootName()
    ensures Relativize("/site/index.ftd", "/site") == "index.ftd"
  {
    assert "/index.ftd"[..5][1] != "/site"[1];
    assert Repeat("/site", 1) + "/" + "index.ftd" == "/site/index.ftd";
    RelativizeRepeatedRoot("/site", 1, "index.ftd");
  }

  /** Only top-level `.git/`, `.github/` and `.gitignore` are excluded. */
  lemma ExclusionExamples()
    ensures IsExcluded(".git/HEAD") && IsExcluded(".github/workflows/ci.yml") && IsExcluded(".gitignore")
    ensures !IsExcluded("sub/.gitignore") && !IsExcluded(".git") && !IsExcluded(".github")
    ensures !IsExcluded(".gitignore.bak") && !IsExcluded("")
  {
    ExcludedExamples();
    KeptExamples();
    KeptName("", 0, 0);
  }

  lemma ExcludedExamples()
    ensures IsExcluded(".git/HEAD") && IsExcluded(".github/workflows/ci.yml") && IsExcluded(".gitignore")
  {
    PrefixAt(".git/HEAD", ".git/");
    PrefixAt(".github/workflows/ci.yml", ".github/");
  }

  lemma KeptExamples()
    ensures !IsExcluded("sub/.gitignore") && !IsExcluded(".git") && !IsExcluded(".github") && !IsExcluded(".gitignore.bak")
  {
    KeptLookalikes();
    KeptDirectoryNames();
  }

  lemma KeptLookalikes()
    ensures !IsExcluded("sub/.gitignore") && !IsExcluded(".gitignore.bak")
  {
    KeptNested();
    KeptBackup();
  }

  lemma KeptNested()
    ensures !IsExcluded("sub/.gitignore")
  {
    KeptName("sub/.gitignore", 0, 0);
  }

  lemma KeptBackup()
    ensures !IsExcluded(".gitignore.bak")
  {
    KeptName(".gitignore.bak", 4, 4);
  }

  lemma KeptDirectoryNames()
    ensures !IsExcluded(".git") && !IsExcluded(".github")
  {
    KeptName(".git", 4, 4);
    KeptName(".github", 4, 7);
  }

  lemma PrefixAt(s: string, prefix: string)
    requires |prefix| <= |s| && s[..|prefix|] == prefix
    ensures IsExcluded(s) <== prefix in {".git/", ".github/"}
  {
  }

  /** `name` differs from `.git/` at index `i` and from `.github/` at index `j`, and is not `.gitignore`. */
  lemma KeptName(name: string, i: nat, j: nat)
    requires i < 5 && (i >= |name| || name[i] != ".git/"[i])
    requires j < 8 && (j >= |name| || name[j] != ".github/"[j])
    requires name != ".gitignore"
    ensures !IsExcluded(name)
  {
  }
}
