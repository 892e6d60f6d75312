# clift upload core, modelled in Dafny

`clift` uploads a fastn package to the FifthTry store. This project models the
deterministic parts of that client and proves properties of them:

- the **local file listing** sent to the server (`get_local_files`): which walked items become
  `{file_name, sha256_hash, file_size}` records, how paths are made relative to the package
  root, and which files are excluded;
- the older **raw-content listing** kept in `src/commands/upload.rs`, and how the current listing
  relates to it;
- **package-name extraction** from `FASTN.ftd` (`get_site_name_from_ftd` and its copy `get_site`);
- the **uploader**, a sink that is either a local debug file or an in-memory buffer sent as one
  pre-signed HTTP request on `commit`;
- the **fingerprint** format (`generate_hash`): SHA-256 rendered as upper-case hex.

Modules, one per source file: `Common` (shared types), `Fingerprint`
(src/commands/utils.rs), `SiteName` (src/utils/get_site_name_from_ftd.rs), `LocalFiles`
(src/utils/get_local_files.rs), `Uploading` (src/utils/uploader.rs), `UploadCommand`
(src/commands/upload.rs).

Effects are inputs or outputs:

- The directory walker's output is a sequence of `WalkItem`s. Each one is a walker error, or a
  path with its is-directory flag and the result of reading it.
- SHA-256 is a parameter `sha256: seq<byte> -> Digest`, where a `Digest` is 32 bytes.
- The outcome of opening and reading `FASTN.ftd` is an `FtdFile` value.
- `commit` returns the HTTP request it would send. It takes the transport's answer as a
  parameter.

Each looping operation is a method proved against a reference function:

- `LocalFiles.GetLocalFiles` against `Listing`;
- `UploadCommand.GetLocalFiles` against `OldListing`;
- `SiteName.FindPackageName` against `PackageNameIn`.

Lemmas then state what those reference functions guarantee.

Some behaviour of the code that the model keeps as written:

- The client computes no add/update/delete plan. The server decides which files are new or
  updated, so there is no diff engine here.
- The root prefix is removed with `trim_start_matches`, so it is removed as often as it repeats
  (`RelativizeRepeatedRoot`). With root `/site`, the files `/site/site/index.ftd` and
  `/site/index.ftd` both get the name `index.ftd` (`RepeatedRootCollision`).
- `commit` does not look at the HTTP status of the pre-signed request. It fails only when sending
  fails.
- Only the current listing reports the path of an unreadable file. The older listing reports a
  bare `IOError`.
- `str::lines` removes a `\r` only when a `\n` follows it. A `\r` at the very end of the text is
  kept.

## Model

| member | source | states |
|---|---|---|
| `Fingerprint.HexUpper` | src/commands/utils.rs:10 | the rendering has two characters per byte, the high nibble's digit first, each from `0-9A-F` |
| `Fingerprint.GenerateHash` | src/commands/utils.rs:5-11 | for every content, the empty one included, the fingerprint is 64 upper-case hex characters |
| `Fingerprint.HexDecodeHexUpper` | src/commands/utils.rs:10 | decoding the rendering, two digits per byte, gives back exactly the digest |
| `Fingerprint.HexUpperInjective` | src/commands/utils.rs:10 | distinct digests render to distinct strings |
| `Fingerprint.GenerateHashInjectiveOnDigest` | src/commands/utils.rs:1-11 | two contents have the same fingerprint only when their SHA-256 digests are equal |
| `Common.StartsWith` | src/utils/get_local_files.rs:37-38 | a text starts with a prefix exactly when the prefix is no longer than the text and agrees with it at every index of the prefix |
| `SiteName.SplitOnce` | src/utils/get_site_name_from_ftd.rs:33 | `split_once(':')` is None exactly when there is no `:`; otherwise the line is the part before, the `:`, and the part after, and the part before has no `:` |
| `SiteName.Contains` | src/utils/get_site_name_from_ftd.rs:31 | a line contains the pattern exactly when the pattern occurs in it at some index |
| `SiteName.WhiteSpaceTable` | src/utils/get_site_name_from_ftd.rs:33 | the ranges of `IsWhitespace` (`char::is_whitespace`, used by `trim`) hold exactly for the 25 code points with the Unicode White_Space property, listed one by one |
| `SiteName.Trim` | src/utils/get_site_name_from_ftd.rs:33 | the result is a piece of the input with only white space around it, and neither begins nor ends with white space |
| `SiteName.Lines` | src/utils/get_site_name_from_ftd.rs:26 | no line contains `\n` |
| `SiteName.LinesJoinLines` | src/utils/get_site_name_from_ftd.rs:26 | lines without `\n` and without a final `\r`, each followed by `\n`, split back into the same lines |
| `SiteName.CrLfLine` | src/utils/get_site_name_from_ftd.rs:26 | a `\r\n` ending is one line ending, and the `\r` is not part of the line |
| `SiteName.FindPackageName` | src/utils/get_site_name_from_ftd.rs:26-36 | the loop, which stops at the first marker line, computes the reference scan `PackageNameIn` of the text's lines |
| `SiteName.GetSiteNameFromFtd` | src/utils/get_site_name_from_ftd.rs:11-38 | open and read failures give `CantOpenFASTNFile`/`CantReadFASTNFile`; otherwise the result is the name the scan finds, or `PackageNotFound` |
| `SiteName.MarkerLineSplits` | src/utils/get_site_name_from_ftd.rs:31-33 | a line containing the marker always has a `:`, so `split_once` cannot fail |
| `SiteName.PackageNameInFirstMarkerLine` | src/utils/get_site_name_from_ftd.rs:29-38 | no name is found exactly when no line contains the marker; otherwise the name is the trimmed text after the first `:` of the first marker line |
| `SiteName.PackageNameTrimmed` | src/utils/get_site_name_from_ftd.rs:33 | a found name has no leading or trailing white space |
| `SiteName.LaterLinesIgnored` | src/utils/get_site_name_from_ftd.rs:30-35 | once a name is found, appending more lines, marker lines included, does not change it |
| `SiteName.MarkerAnywhere` | src/utils/get_site_name_from_ftd.rs:31-33 | the marker may stand anywhere in the line; with no `:` before it, the name is the trimmed rest after the marker's own `:` |
| `SiteName.BareMarkerLine` | src/utils/get_site_name_from_ftd.rs:26-38 | a text that is exactly the marker names the empty package |
| `SiteName.ColonBeforeMarker` | src/utils/get_site_name_from_ftd.rs:33 | a `:` before the marker moves the split, so the marker itself becomes part of the name |
| `LocalFiles.TrimStartMatches` | src/utils/get_local_files.rs:33-34 | after trimming, the text no longer starts with a non-empty pattern; an empty pattern trims nothing |
| `LocalFiles.TrimStartMatchesRepeat` | src/utils/get_local_files.rs:33 | n copies of the pattern in front of a rest that does not start with it are all removed, and nothing else is |
| `LocalFiles.TrimStartMatchesRemovesCopies` | src/utils/get_local_files.rs:33 | what is removed is always a whole number of copies of the pattern |
| `LocalFiles.Relativize` | src/utils/get_local_files.rs:28-35 | a relative name never starts with `/` |
| `LocalFiles.RelativizeRepeatedRoot` | src/utils/get_local_files.rs:28-35 | a file reached through one or more copies of the root string, then `/rel`, is named `rel` |
| `LocalFiles.RelativizeChild` | src/utils/get_local_files.rs:28-35 | `root/a/b.txt` is named `a/b.txt` whether or not the root string ends in `/` |
| `LocalFiles.RepeatedRootCollision` | src/utils/get_local_files.rs:33 | with root `/site`, `/site/site/index.ftd` and `/site/index.ftd` both get the name `index.ftd` |
| `LocalFiles.ExclusionExamples` | src/utils/get_local_files.rs:37-42 | `.git/…`, `.github/…` and `.gitignore` are excluded; `sub/.gitignore`, `.git`, `.github`, `.gitignore.bak` and the empty name are not |
| `LocalFiles.IsExcluded` | src/utils/get_local_files.rs:37-42 | a relative name is skipped exactly when its top directory is `.git` or `.github`, or when it is exactly `.gitignore` |
| `LocalFiles.GetLocalFiles` | src/utils/get_local_files.rs:19-53 | the loop, with its early return on a failed read, computes the reference listing `Listing` of the walk |
| `LocalFiles.ItemListing` | src/utils/get_local_files.rs:20-50 | one walk item contributes at most one record, with a relative, non-excluded name and a 64-digit hash; it fails only on a non-directory whose read failed, with that error and the item's full path |
| `LocalFiles.Listing` | src/utils/get_local_files.rs:19-53 | a successful listing has at most one record per walk item, each with a relative, non-excluded name and a 64-digit hash |
| `LocalFiles.ItemListingCases` | src/utils/get_local_files.rs:20-50 | one item: a failed read of a non-directory aborts with `CantReadFile(error, full path)`; a kept file gives its one record; a directory, a walker error or an excluded file gives nothing |
| `LocalFiles.ListingFailure` | src/utils/get_local_files.rs:24-26 | the listing fails exactly when some non-directory cannot be read, and then with the first such item's error and path, even when that path would be excluded |
| `LocalFiles.ListingAppend` | src/utils/get_local_files.rs:19-53 | listing a concatenated walk concatenates the two listings in walk order, and the first failure wins |
| `LocalFiles.DroppedItems` | src/utils/get_local_files.rs:20-23 | removing a directory or a walker error from anywhere in the walk leaves the listing unchanged |
| `LocalFiles.ListingSound` | src/utils/get_local_files.rs:28-50 | every record comes from a kept file of the walk; its name is that file's relative path, has no leading `/` and is not excluded; its size is the number of bytes read; its hash is `generate_hash` of those bytes |
| `LocalFiles.ListingComplete` | src/utils/get_local_files.rs:37-51 | every kept file of the walk has its record in a successful listing |
| `Uploading.Uploader.S3Uploader` | src/utils/uploader.rs:20-22 | an `S3` uploader starts with an empty buffer and keeps the pre-signed request as given |
| `Uploading.Uploader.FileUploader` | src/utils/uploader.rs:16-17 | the `File` variant over the file just created keeps its path and has nothing written yet |
| `Uploading.IsMethodToken` | src/utils/uploader.rs:39 | a method string is accepted exactly when it is non-empty and each character is visible ASCII and not one of the delimiters of section 3.2.6 of RFC 7230 |
| `Uploading.Uploader.Debug` | src/utils/uploader.rs:15-18 | a failed `File::create` gives `IOError`; otherwise a fresh `File` uploader over an empty file |
| `Uploading.Uploader.Upload` | src/utils/uploader.rs:24-33 | on either variant, a successful read appends the file's bytes after everything staged before; a failed read gives `IOError` and leaves the staged bytes unchanged |
| `Uploading.Uploader.Commit` | src/utils/uploader.rs:35-50 | `File`: `Ok` and no request. `S3`: exactly one request, with the stored method, URL, every stored header, and the buffer as body; the buffer is not cleared; the result is `Ok` whatever the status, and an error only if sending fails; a method string that `reqwest` rejects is excluded, because the source panics on it |
| `Uploading.CommitAfterTwoUploads` | src/utils/uploader.rs:20-46 | two uploads on a fresh `S3` uploader, then `commit`: the request body is the two files' bytes in upload order |
| `UploadCommand.GetSite` | src/commands/upload.rs:26-47 | the same line scan as `get_site_name_from_ftd`; open and read failures give `IOError`; no marker line gives `PackageNotFound` |
| `UploadCommand.GetLocalFiles` | src/commands/upload.rs:49-79 | the loop, with its early return on a failed open or read, computes the reference listing `OldListing` |
| `UploadCommand.OldItemListing` | src/commands/upload.rs:55-75 | one walk item contributes at most one file, with a relative name; it fails only on a non-directory whose read failed, with that `IOError` |
| `UploadCommand.OldListing` | src/commands/upload.rs:49-79 | a successful older listing has at most one file per walk item, each with a relative name |
| `UploadCommand.OldItemListingCases` | src/commands/upload.rs:55-75 | every readable non-directory gives one record with its relative name and full bytes, `.git/` and `.gitignore` files included; directories and walker errors give none; a failed read aborts with `IOError` |
| `UploadCommand.OldListingFailure` | src/commands/upload.rs:59-61 | the older listing fails exactly when some non-directory cannot be read, with the first such error and no partial list |
| `UploadCommand.OldListingAppend` | src/commands/upload.rs:54-78 | the older listing of a concatenated walk concatenates the two listings in walk order |
| `UploadCommand.ListingRefinesOldListing` | src/commands/upload.rs:49-79 | the two listings fail on the same walks with the same I/O error; on success, the current listing is the older one with the exclusions applied and each file's bytes replaced by their hash and size |

## Left out

- Directory traversal and ignore-rule evaluation (`ignore::WalkBuilder`, src/utils/get_local_files.rs:10-17 and src/commands/upload.rs:52) belong to a foreign library. Their output is an input sequence. The walker's order is taken as given.
- SHA-256 itself is a parameter of the fingerprint and listing functions, not an implementation.
- Paths and file contents that are not valid UTF-8 are not modelled. This covers the `to_str().unwrap()` panic, `to_string_lossy`, and `read_to_string` failing on invalid UTF-8 (which shows up only as a `CantRead` input).
- File reads, opening and reading `FASTN.ftd`, and `File::create` are not performed. Their outcomes are parameters. The older listing's separate open and read steps are one read outcome, because both fail with the same `IOError`.
- `Uploading.Uploader.Upload`: a failing or partial `write_all` to the debug file is not modelled. The file sink is the sequence of bytes appended to it.
- `Uploading.Uploader.Commit`: a URL or header that `reqwest` rejects is part of the transport-error input, because it surfaces as the `reqwest::Error` of `send`. A method string that `Method::from_bytes` rejects makes the source panic at the `unwrap`; the model requires a valid token instead. Headers are a map; header-name case folding is not modelled. The network send is the returned request value.
- `Uploading.CommitAfterTwoUploads`: shows the upload-order property for two uploads only. For any number of uploads it follows from `Upload`'s postcondition, one call at a time.
- The HTTP clients `src/api/initiate_upload.rs`, `src/api/commit_upload.rs` and `src/utils/call_api.rs`, and the manifest fetch in `upload` (src/commands/upload.rs:11-19), are network I/O and are not part of this model. `upload` also discards both listings, so there is no client-side diff to model. Commit echoes `upload_session_id` and `tejar_file_id` from the initiate response.
- Credential lookup (`src/utils/github_token.rs`, `src/commands/github_helper.rs`), the command line, the version string, the exit code and the async runtime (`src/main.rs`) depend on the environment.
- `UploadError::ReqwestError` and `UploadError::UrlParseError` arise only in the network code, so `UploadCommand.UploadError` has just `PackageNotFound` and `IOError`.
- The module wiring (`src/error.rs`, `src/utils/mod.rs`, `src/commands/mod.rs`) names modules that are not part of this model, so calls across modules are not modelled.
