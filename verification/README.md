# kozy: file service and auth controller, modelled in Dafny

This project models the two pieces of logic in the kozy API that carry
behaviour of their own:

- **The file service** (`kozy-api/Services/FileService.cs`). Its pure part
  is the upload validator `IsValidFile` and the two classifiers
  `GetFileExtension` and `GetContentType`. Both classifiers are built on
  .NET's `Path.GetExtension`, which is modelled too. Its storage part is
  `UploadFileAsync`, `DownloadFileAsync`, `DeleteFileAsync` and
  `GetFilesAsync`. These are modelled as state transformers over a flat
  store: a set of existing folders plus a map from (folder, name) to bytes.
- **The auth controller** (`kozy-api/Controllers/AuthController.cs`).
  `Login`, `Register` and `GetUsers` are modelled as pure functions over an
  abstract identity store and token minter. The collaborators are
  uninterpreted functions: `findByEmail`, `checkPassword`, `create`, the
  user table, and `generateToken`. Each action returns its HTTP result plus
  the sequence of calls it made. The contracts say which collaborators were
  consulted, with which arguments, how often, and for whom a token was
  minted.

Files:

| file | module | contents |
|---|---|---|
| `wrappers.dfy` | `Wrappers` | `Option` (a nullable reference) and `Result` (returns or throws) |
| `text.dfy` | `Text` | invariant lower-casing, suffix test |
| `path_model.dfy` | `PathModel` | `Path.GetExtension` as a backward scan, with a declarative characterisation |
| `file_service.dfy` | `FileService` | `IsValidFile`, `GetFileExtension`, `GetContentType` |
| `file_store.dfy` | `FileStore` | upload, download, delete and listing over the abstract store |
| `auth_controller.dfy` | `AuthController` | `Login`, `Register`, `GetUsers` |

Assumptions made explicit in the model:

- `Path.GetExtension` scans backwards from the end of the name. If it
  meets a '.' that is not the last character, it returns the suffix from
  that dot. Otherwise it returns "". It also returns "" when it meets a
  directory separator first or finds no dot. The separator is '/', the
  only one on a Unix host.
- The random GUID of an upload is an argument of `FileStore.Upload`. A
  GUID's text has the "D" format of `Guid.ToString()`: 36 characters,
  lower-case hex digits, hyphens at positions 8, 13, 18 and 23. It never
  contains a '.' or a '/'.
- The id that a new `ApplicationUser` gets from its constructor is an
  argument of `AuthController.Register`.

Two behaviours of the code that the model keeps as written:

- The allow-list of `IsValidFile` is only case-insensitive on the file's
  side. The file's extension is lower-cased, but the list entries are
  compared as given (`FileService.cs:124-125`). An entry such as ".PDF"
  therefore never matches.
- A GUID collision overwrites the existing file (`FileMode.Create`).
  `FileStore.Upload` models the overwrite. Freshness of the stored name is
  proved under the hypothesis that the generated name is not yet taken.

## Model

| member | source | states |
|---|---|---|
| `Text.ToLowerInvariant` | kozy-api/Services/FileService.cs:134 | lower-casing keeps the length, leaves no upper-case letter, maps each upper-case ASCII letter to its lower-case counterpart and leaves every other character in place |
| `PathModel.LastStop` | kozy-api/Services/FileService.cs:29 | the backward scan finds the last '.' or separator before the bound, with none after it, or reports that there is none |
| `PathModel.GetExtension` | kozy-api/Services/FileService.cs:29 | the extension is "" or a suffix that starts at a '.', is at least two characters long and has no further '.' or separator; any dot that qualifies as an extension start gives exactly that suffix |
| `PathModel.HasExtensionIff` | kozy-api/Services/FileService.cs:134 | a name has a non-empty extension if and only if some '.' is followed by at least one character and by no '.' or separator |
| `PathModel.ExtensionShape` | kozy-api/Services/FileService.cs:29 | after its leading dot, an extension contains no '.' or separator |
| `PathModel.ExtensionOfRenamed` | kozy-api/Services/FileService.cs:29-30 | prefixing an extension with a dot-free, separator-free stem gives a name with that same extension |
| `FileService.GetFileExtension` | kozy-api/Services/FileService.cs:132-135 | the result is entirely lower-case; it is "" or starts with '.'; it is empty exactly when the raw extension is; it is a suffix of the lower-cased name of the same length as the raw extension |
| `FileService.IsValidFile` | kozy-api/Services/FileService.cs:112-130 | null or zero-length files are invalid; files over the ceiling are invalid; a file at exactly the ceiling passes the size test; with no or an empty allow-list, size alone decides; with a non-empty list, a valid file's lower-cased extension is in the list |
| `FileService.AllowListDecides` | kozy-api/Services/FileService.cs:122-127 | for a non-empty file within the ceiling and a non-empty list, validity holds if and only if the lower-cased extension is in the list |
| `FileService.UnnormalisedEntriesNeverMatch` | kozy-api/Services/FileService.cs:124-125 | list entries are not lower-cased: a list whose every entry contains an upper-case letter rejects every file |
| `FileService.DefaultCeilingBoundary` | kozy-api/Services/FileService.cs:112-119 | with the default ceiling of 10485760 bytes, 10485760 passes, 10485761 fails and 20000000 fails |
| `FileService.GetContentType` | kozy-api/Services/FileService.cs:137-170 | a listed extension gets its table entry; every other extension, "" included, gets application/octet-stream |
| `FileService.ExtensionOfLowered` | kozy-api/Services/FileService.cs:134 | the extension of the lower-cased name is the lower-cased extension |
| `FileService.FileExtensionCaseInsensitive` | kozy-api/Services/FileService.cs:132-135 | names equal up to case have the same file extension |
| `FileService.ContentTypeByExtension` | kozy-api/Services/FileService.cs:137-139 | names with the same file extension, or equal up to case, have the same content type |
| `FileService.ExtensionOfSuffix` | kozy-api/Services/FileService.cs:29 | any stem followed by a dot and at least one character with no further '.' or separator has exactly that suffix as its extension |
| `FileService.EveryTableEntryReachable` | kozy-api/Services/FileService.cs:139-168 | for every table extension and any stem, including stems with dots or directories, the stem plus that extension has exactly that file extension and gets that entry's MIME type |
| `FileService.FileExtensionExample` | kozy-api.Tests/Services/FileServiceTests.cs:165-169 | "test.TXT" has file extension ".txt" |
| `FileService.ContentTypeUpperCaseExample` | kozy-api/Services/FileService.cs:139-143 | "report.PDF" is application/pdf |
| `FileService.ContentTypeJpgExample` | kozy-api/Services/FileService.cs:157 | "photo.jpg" is image/jpeg |
| `FileService.ContentTypeJpegExample` | kozy-api/Services/FileService.cs:157 | "photo.JPEG", the second spelling in upper case, is image/jpeg too |
| `FileService.ContentTypeUnknownExample` | kozy-api.Tests/Services/FileServiceTests.cs:176 | "test.unknown" is application/octet-stream |
| `FileService.ContentTypeTextExample` | kozy-api.Tests/Services/FileServiceTests.cs:174 | "test.txt" is text/plain |
| `FileService.ContentTypePdfExample` | kozy-api.Tests/Services/FileServiceTests.cs:175 | "test.pdf" is application/pdf |
| `FileService.ContentTypeNoExtensionExample` | kozy-api/Services/FileService.cs:168 | "README", a name without any extension, is application/octet-stream |
| `FileStore.UniqueName` | kozy-api/Services/FileService.cs:29-30 | the stored name is the GUID immediately followed by the original, not lower-cased, extension: it starts with the GUID, ends with the extension, and is exactly as long as both together |
| `FileStore.UniqueNameKeepsExtension` | kozy-api/Services/FileService.cs:29-30 | with a GUID-formatted prefix, the stored name's extension is the original file's extension |
| `FileStore.DistinctGuidsDistinctNames` | kozy-api/Services/FileService.cs:30 | distinct GUIDs give distinct stored names, whatever the extensions |
| `FileStore.Download` | kozy-api/Services/FileService.cs:47-65 | succeeds exactly when the name is stored in the folder, returning its bytes; otherwise fails with not-found naming the file |
| `FileStore.Upload` | kozy-api/Services/FileService.cs:14-45 | a null or empty file fails with an argument error and leaves the store unchanged; otherwise the returned name is the GUID followed by the original extension, the folder exists afterwards, a download of it returns the uploaded bytes, every other entry is unchanged, the folder gains exactly that name, and store validity is preserved |
| `FileStore.Delete` | kozy-api/Services/FileService.cs:67-85 | returns true exactly when the name was stored; when false nothing changes; otherwise only that entry is removed, folders stay, and a later download fails |
| `FileStore.GetFiles` | kozy-api/Services/FileService.cs:87-110 | a missing folder lists nothing; otherwise each name in the folder is listed exactly once |
| `FileStore.UploadDownloadRoundTrip` | kozy-api.Tests/Services/FileServiceTests.cs:67-77 | uploading a non-empty file and downloading the returned name gives back exactly its bytes |
| `FileStore.FreshUploadThenDelete` | kozy-api/Services/FileService.cs:30-35 | when the generated name is not yet taken, the upload adds a new name, the folder grows by one, and deleting that name restores every file |
| `FileStore.DeleteAbsent` | kozy-api/Services/FileService.cs:73-74 | deleting an absent name returns false and leaves the store as it was |
| `FileStore.DeleteThenDownloadNotFound` | kozy-api.Tests/Services/FileServiceTests.cs:87-96 | deleting a present name returns true, and a download of it then fails with not-found |
| `FileStore.UploadAllListsExactly` | kozy-api.Tests/Services/FileServiceTests.cs:106-120 | after N non-empty uploads with distinct GUIDs into an empty or missing folder, the folder holds exactly the N generated names, which are pairwise distinct |
| `AuthController.Login` | kozy-api/Controllers/AuthController.cs:30-44 | a token is returned if and only if the e-mail finds an account and the password checks for it; the token is minted for that account's id; every failure is Unauthorized("Invalid credentials"); the password is checked only when an account was found; a token is minted only on success; the trace is exactly one lookup of the submitted e-mail, then, only for a found account, one check of that account with the submitted password, then, only on success, one mint for that account's id; no account is created |
| `AuthController.LoginFailuresIndistinguishable` | kozy-api/Controllers/AuthController.cs:34-43 | an unknown e-mail and a wrong password give the identical result |
| `AuthController.LoginIgnoresCheckerWhenUnknown` | kozy-api/Controllers/AuthController.cs:34 | when no account is found, the result and the calls do not depend on the password checker |
| `AuthController.Register` | kozy-api/Controllers/AuthController.cs:48-68 | the account handed to the store has user name and e-mail both equal to the submitted e-mail; a token is returned exactly when creation succeeds, minted for the created account's id; on failure the store's error list is returned as is; a token is minted only on success; no password check is made; the trace is exactly one creation, followed on success by one mint for the created account's id and nothing else |
| `AuthController.RegisterErrorsVerbatim` | kozy-api/Controllers/AuthController.cs:67 | the errors returned have the same count, codes and order as the store's |
| `AuthController.RegisterDuplicateExample` | kozy-api.Tests/Controllers/AuthControllerTests.cs:136-154 | a duplicate-user-name failure yields exactly one error, with code DuplicateUserName |
| `AuthController.GetUsers` | kozy-api/Controllers/AuthController.cs:71-74 | every account in the user table is returned, unfiltered and in table order, without minting a token or reading a credential; the only call is one read of the user table |
| `AuthController.GetUsersReadsOnlyTable` | kozy-api/Controllers/AuthController.cs:71-74 | two service sets with the same user table give the same listing and the same calls, whatever their lookup, password check, creation or minting do |

## Left out

- Token generation (`kozy-api/Services/JwtService.cs`) is an uninterpreted function of the user id. The JWT encoding, HMAC-SHA256 signing and the clock read are not modelled.
- The identity store and the database context are not modelled. Password hashing, uniqueness checks and the user table query are uninterpreted collaborators.
- Application start-up (`kozy-api/Program.cs`) is not modelled: dependency injection, authentication middleware, Swagger, CORS and migrations.
- The `[Authorize]` requirement on `GetUsers` is enforced by the framework's middleware before the action runs, so it is not modelled.
- Real file system behaviour is not modelled: path building with `Path.Combine`, the root directory, traversal through crafted folder names or file names (a name containing '/' or ".."), nested folders, streams, and I/O exceptions. Folders and file names are opaque keys of the store.
- The default folder argument `"uploads"` of the four storage operations is not a separate definition: the default call is the instance `folder := "uploads"`.
- Asynchrony, `Task.Run`, logging, and the constructor's null-argument guards are not modelled.
- The randomness of `Guid.NewGuid()` is not modelled. The GUID is an argument, and freshness is a hypothesis of the lemmas that need it.
- Text.ToLowerInvariant: lower-cases ASCII letters only. The invariant culture's mapping of other Unicode letters is not modelled. Extensions in practice are ASCII.
- PathModel.IsDirectorySeparator: treats only '/' as a separator, as on Unix. On Windows, '\\' would also stop the scan.
- FileStore.GetFiles: promises each name exactly once but no order, because the file system's enumeration order is unspecified. It requires the store invariant `Valid` (every file lies in an existing folder). The empty store satisfies it, and `Upload` and `Delete` preserve it.
- File lengths are naturals, not 64-bit integers. The service only compares lengths and never adds them, so 64-bit overflow cannot occur. Negative lengths are not modelled; no real form file has one, and one would pass both size checks (`kozy-api/Services/FileService.cs:114-118`).
- Null strings in the login and registration DTOs are not modelled.
- A null file name is not modelled, because `FormFile.fileName` is a string. `Path.GetExtension(null)` returns null. `GetFileExtension` and `GetContentType` would then throw a NullReferenceException at `kozy-api/Services/FileService.cs:134`. So would `IsValidFile` with a non-empty allow-list, at line 124, after the null and size checks have passed. `UploadFileAsync` would store the upload under the bare GUID (lines 29-30).
- `IFileService` is only the interface and is not modelled separately. The client code is not part of this model.
