/** The file service's storage operations over an abstract flat store: each
    folder under the upload root holds named byte blobs. The host file
    system becomes a map from (folder, name) to contents plus the set of
    folders that exist; the random GUID becomes an argument. */
module FileStore {
  import opened Wrappers
  import opened Text
  import opened PathModel
  import opened FileService

  datatype Key = Key(folder: string, name: string)

  datatype Store = Store(folders: set<string>, files: map<Key, seq<byte>>)

  /** A file can only live in a folder that exists. */
  predicate Valid(s: Store) {
    forall k :: k in s.files ==> k.folder in s.folders
  }

  /** The errors the storage operations raise. */
  datatype FileError =
    | ArgumentError(message: string)   // ArgumentException
    | NotFound(message: string)        // FileNotFoundException

  /** The file names stored directly in `folder`. */
  function FolderNames(s: Store, folder: string): (names: set<string>)
    ensures forall name :: name in names <==> Key(folder, name) in s.files
  {
    set k | k in s.files && k.folder == folder :: k.name
  }

  predicate IsLowerHex(c: char) {
    '0' <= c <= '9' || 'a' <= c <= 'f'
  }

  /** The text of `Guid.ToString()`: 32 lower-case hex digits in groups of
      8-4-4-4-12 separated by hyphens. */
  predicate IsGuid(g: string) {
    && |g| == 36
    && forall i :: 0 <= i < |g| ==>
         if i == 8 || i == 13 || i == 18 || i == 23 then g[i] == '-' else IsLowerHex(g[i])
  }

  lemma GuidHasNoStop(g: string)
    requires IsGuid(g)
    ensures forall k :: 0 <= k < |g| ==> !IsStop(g[k])
  {
    forall k | 0 <= k < |g|
      ensures !IsStop(g[k])
    {
      if k == 8 || k == 13 || k == 18 || k == 23 {
      } else {
        assert IsLowerHex(g[k]);
      }
    }
  }

  /** The name an upload is stored under: the GUID followed by the original
      extension (not lower-cased). */
  function UniqueName(guid: string, file: FormFile): (name: string)
    ensures EndsWith(name, GetExtension(file.fileName))
    ensures |guid| <= |name| && name[..|guid|] == guid
    ensures |name| == |guid| + |GetExtension(file.fileName)|
  {
    var name := guid + GetExtension(file.fileName);
    assert name[|name| - |GetExtension(file.fileName)|..] == GetExtension(file.fileName);
    name
  }

  /** The stored name carries the same extension as the original file: a
      GUID adds no '.' of its own. */
  lemma UniqueNameKeepsExtension(guid: string, file: FormFile)
    requires IsGuid(guid)
    ensures GetExtension(UniqueName(guid, file)) == GetExtension(file.fileName)
  {
    GuidHasNoStop(guid);
    ExtensionOfRenamed(guid, file.fileName);
  }

  /** `DownloadFileAsync`: the stored bytes, or not-found. */
  function Download(s: Store, fileName: string, folder: string): (r: Result<seq<byte>, FileError>)
    ensures r.Success? <==> fileName in FolderNames(s, folder)
    ensures r.Success? ==> r.value == s.files[Key(folder, fileName)]
    ensures r.Failure? ==> r.error == NotFound("File not found: " + fileName)
  {
    var key := Key(folder, fileName);
    if key !in s.files then Failure(NotFound("File not found: " + fileName))
    else Success(s.files[key])
  }

  /** `UploadFileAsync` with `guid` as the value `Guid.NewGuid()` produced.
      A null or empty file is rejected before the store is touched;
      otherwise the folder is created if missing and the content written
      under the new name (`FileMode.Create` would overwrite on a GUID
      collision). */
  function Upload(s: Store, file: Option<FormFile>, folder: string, guid: string): (r: (Store, Result<string, FileError>))
    ensures file.None? || file.value.length == 0 ==>
      r.0 == s && r.1 == Failure(ArgumentError("File is empty or null"))
    ensures file.Some? && file.value.length != 0 ==>
      && r.1 == Success(UniqueName(guid, file.value))
      && folder in r.0.folders
      && r.0.folders == s.folders + {folder}
      && EndsWith(r.1.value, GetExtension(file.value.fileName))
      && Download(r.0, r.1.value, folder) == Success(file.value.content)
      && r.0.files - {Key(folder, r.1.value)} == s.files - {Key(folder, r.1.value)}
      && FolderNames(r.0, folder) == FolderNames(s, folder) + {r.1.value}
    ensures Valid(s) ==> Valid(r.0)
  {
    if file.None? || file.value.length == 0 then
      (s, Failure(ArgumentError("File is empty or null")))
    else
      var name := UniqueName(guid, file.value);
      var s' := Store(s.folders + {folder}, s.files[Key(folder, name) := file.value.content]);
      assert FolderNames(s', folder) == FolderNames(s, folder) + {name};
      (s', Success(name))
  }

  /** `DeleteFileAsync`: false and no change when the file is absent;
      otherwise exactly that entry is removed. */
  function Delete(s: Store, fileName: string, folder: string): (r: (Store, bool))
    ensures r.1 <==> fileName in FolderNames(s, folder)
    ensures !r.1 ==> r.0 == s
    ensures r.0.folders == s.folders
    ensures r.0.files == s.files - {Key(folder, fileName)}
    ensures Download(r.0, fileName, folder).Failure?
    ensures FolderNames(r.0, folder) == FolderNames(s, folder) - {fileName}
    ensures Valid(s) ==> Valid(r.0)
  {
    var key := Key(folder, fileName);
    if key !in s.files then (s, false)
    else
      var s' := Store(s.folders, s.files - {key});
      assert FolderNames(s', folder) == FolderNames(s, folder) - {fileName};
      (s', true)
  }

  /** `GetFilesAsync`: an empty list for a missing folder, otherwise every
      name in the folder exactly once, in no promised order. */
  method GetFiles(s: Store, folder: string) returns (names: seq<string>)
    requires Valid(s)
    ensures folder !in s.folders ==> names == []
    ensures forall name :: name in names <==> name in FolderNames(s, folder)
    ensures |names| == |FolderNames(s, folder)|
  {
    if folder !in s.folders {
      assert FolderNames(s, folder) == {};
      return [];
    }
    var remaining := FolderNames(s, folder);
    names := [];
    while remaining != {}
      invariant forall name :: name in FolderNames(s, folder) <==> name in names || name in remaining
      invariant forall name :: name in names ==> name !in remaining
      invariant |names| + |remaining| == |FolderNames(s, folder)|
      decreases |remaining|
    {
      var name :| name in remaining;
      names := names + [name];
      remaining := remaining - {name};
    }
  }

  /** Upload followed by download of the returned name gives back exactly
      the uploaded bytes, for any non-empty file. */
  lemma UploadDownloadRoundTrip(s: Store, file: FormFile, folder: string, guid: string)
    requires file.length > 0
    ensures var (s', r) := Upload(s, Some(file), folder, guid);
      r.Success? && Download(s', r.value, folder) == Success(file.content)
  {
  }

  /** With a GUID whose name is not yet taken, the upload adds a new entry
      and overwrites nothing; deleting it again restores every file. */
  lemma FreshUploadThenDelete(s: Store, file: FormFile, folder: string, guid: string)
    requires file.length > 0
    requires UniqueName(guid, file) !in FolderNames(s, folder)
    ensures var (s', r) := Upload(s, Some(file), folder, guid);
      && r.Success?
      && r.value !in FolderNames(s, folder)
      && |FolderNames(s', folder)| == |FolderNames(s, folder)| + 1
      && Delete(s', r.value, folder) == (Store(s.folders + {folder}, s.files), true)
  {
    var (s', r) := Upload(s, Some(file), folder, guid);
    assert s'.files - {Key(folder, r.value)} == s.files;
  }

  /** Deleting a name that was never stored reports false and changes nothing. */
  lemma DeleteAbsent(s: Store, fileName: string, folder: string)
    requires fileName !in FolderNames(s, folder)
    ensures Delete(s, fileName, folder) == (s, false)
  {
  }

  /** A delete of a present file is followed by not-found on download. */
  lemma DeleteThenDownloadNotFound(s: Store, fileName: string, folder: string)
    requires fileName in FolderNames(s, folder)
    ensures var (s', deleted) := Delete(s, fileName, folder);
      deleted && Download(s', fileName, folder) == Failure(NotFound("File not found: " + fileName))
  {
  }

  /** Uploads into the same folder in order, one GUID per file; returns the
      final store and the generated names. */
  function UploadAll(s: Store, files: seq<FormFile>, folder: string, guids: seq<string>): (r: (Store, seq<string>))
    requires |files| == |guids|
    ensures |r.1| <= |files|
    ensures (forall i :: 0 <= i < |files| ==> files[i].length > 0) ==> |r.1| == |files|
    decreases |files|
  {
    if |files| == 0 then (s, [])
    else
      var up := Upload(s, Some(files[0]), folder, guids[0]);
      var rest := UploadAll(up.0, files[1..], folder, guids[1..]);
      (rest.0, (if up.1.Success? then [up.1.value] else []) + rest.1)
  }

  /** After uploading N non-empty files with distinct GUIDs into a folder
      that held nothing, the folder lists exactly the N generated names. */
  lemma {:induction false} UploadAllListsExactly(s: Store, files: seq<FormFile>, folder: string, guids: seq<string>)
    requires |files| == |guids|
    requires forall i :: 0 <= i < |files| ==> files[i].length > 0
    requires forall i :: 0 <= i < |guids| ==> IsGuid(guids[i])
    requires forall i, j :: 0 <= i < j < |guids| ==> guids[i] != guids[j]
    requires FolderNames(s, folder) == {}
    ensures var r := UploadAll(s, files, folder, guids);
      && (forall i :: 0 <= i < |r.1| ==> r.1[i] == UniqueName(guids[i], files[i]))
      && (forall i, j :: 0 <= i < j < |r.1| ==> r.1[i] != r.1[j])
      && FolderNames(r.0, folder) == (set x | x in r.1)
      && |FolderNames(r.0, folder)| == |files|
  {
    UploadAllNames(s, files, folder, guids);
    UploadAllAppends(s, files, folder, guids);
    var names := UploadAll(s, files, folder, guids).1;
    forall i, j | 0 <= i < j < |names|
      ensures names[i] != names[j]
    {
      DistinctGuidsDistinctNames(guids[i], files[i], guids[j], files[j]);
    }
    DistinctCount(names);
  }

  /** One step of a batch: the first upload stores the first file under its
      GUID-based name, and the rest of the batch continues from there. */
  lemma UploadAllStep(s: Store, files: seq<FormFile>, folder: string, guids: seq<string>)
    requires |files| == |guids| > 0 && files[0].length > 0
    ensures var s1 := Upload(s, Some(files[0]), folder, guids[0]).0;
      var rest := UploadAll(s1, files[1..], folder, guids[1..]);
      && FolderNames(s1, folder) == FolderNames(s, folder) + {UniqueName(guids[0], files[0])}
      && UploadAll(s, files, folder, guids) == (rest.0, [UniqueName(guids[0], files[0])] + rest.1)
  {
  }

  /** The batch's generated names are, in order, the GUID-based names of
      its files. */
  lemma {:induction false} UploadAllNames(s: Store, files: seq<FormFile>, folder: string, guids: seq<string>)
    requires |files| == |guids|
    requires forall i :: 0 <= i < |files| ==> files[i].length > 0
    ensures var names := UploadAll(s, files, folder, guids).1;
      forall i :: 0 <= i < |names| ==> names[i] == UniqueName(guids[i], files[i])
    decreases |files|
  {
    if |files| > 0 {
      var s1 := Upload(s, Some(files[0]), folder, guids[0]).0;
      UploadAllStep(s, files, folder, guids);
      UploadAllNames(s1, files[1..], folder, guids[1..]);
      var rest := UploadAll(s1, files[1..], folder, guids[1..]).1;
      ShiftedNames(files, guids, rest);
    }
  }

  /** Names generated for the tail, shifted by one, line up with the batch. */
  lemma ShiftedNames(files: seq<FormFile>, guids: seq<string>, rest: seq<string>)
    requires |files| == |guids| > 0 && |rest| <= |files| - 1
    requires forall i :: 0 <= i < |rest| ==> rest[i] == UniqueName(guids[1..][i], files[1..][i])
    ensures var names := [UniqueName(guids[0], files[0])] + rest;
      forall i :: 0 <= i < |names| ==> names[i] == UniqueName(guids[i], files[i])
  {
    var names := [UniqueName(guids[0], files[0])] + rest;
    forall i | 0 < i < |names|
      ensures names[i] == UniqueName(guids[i], files[i])
    {
      assert names[i] == rest[i - 1];
      assert files[1..][i - 1] == files[i] && guids[1..][i - 1] == guids[i];
    }
  }

  /** Every upload of the batch adds its generated name to the folder. */
  lemma {:induction false} UploadAllAppends(s: Store, files: seq<FormFile>, folder: string, guids: seq<string>)
    requires |files| == |guids|
    requires forall i :: 0 <= i < |files| ==> files[i].length > 0
    ensures var r := UploadAll(s, files, folder, guids);
      FolderNames(r.0, folder) == FolderNames(s, folder) + (set x | x in r.1)
    decreases |files|
  {
    if |files| > 0 {
      var s1 := Upload(s, Some(files[0]), folder, guids[0]).0;
      UploadAllStep(s, files, folder, guids);
      UploadAllAppends(s1, files[1..], folder, guids[1..]);
      var rest := UploadAll(s1, files[1..], folder, guids[1..]);
      AppendNames(FolderNames(s, folder), FolderNames(s1, folder), FolderNames(rest.0, folder),
                  UniqueName(guids[0], files[0]), rest.1);
    }
  }

  lemma AppendNames(before: set<string>, middle: set<string>, after: set<string>, name: string, rest: seq<string>)
    requires middle == before + {name}
    requires after == middle + (set x | x in rest)
    ensures after == before + (set x | x in [name] + rest)
  {
    assert (set x | x in [name] + rest) == {name} + (set x | x in rest);
  }

  /** All GUID texts have the same length, so two distinct GUIDs give two
      distinct stored names whatever the extensions. */
  lemma DistinctGuidsDistinctNames(g1: string, f1: FormFile, g2: string, f2: FormFile)
    requires IsGuid(g1) && IsGuid(g2) && g1 != g2
    ensures UniqueName(g1, f1) != UniqueName(g2, f2)
  {
    var n1, n2 := UniqueName(g1, f1), UniqueName(g2, f2);
    if n1 == n2 {
      assert n1[..36] == g1;
      assert n2[..36] == g2;
    }
  }

  /** A sequence without repeats has as many distinct elements as entries. */
  lemma {:induction false} DistinctCount(xs: seq<string>)
    requires forall i, j :: 0 <= i < j < |xs| ==> xs[i] != xs[j]
    ensures |set x | x in xs| == |xs|
    decreases |xs|
  {
    if |xs| > 0 {
      var tail := xs[..|xs| - 1];
      DistinctCount(tail);
      assert (set x | x in xs) == (set x | x in tail) + {xs[|xs| - 1]};
      assert xs[|xs| - 1] !in tail;
    }
  }
}
