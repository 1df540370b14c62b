# uCL-GUI core, modelled in Dafny

uCL-GUI installs CSS bundles ("mods") into a Firefox profile. Each installed stylesheet is wired up
through an `@import url("…");` directive in the profile's `chrome/userChrome.css`. A directive can be
switched off by wrapping it in a comment `/* … */`. This project models the text-and-data core of the
program and proves properties of it:

- **The directive store** (`UserChrome`, `UserChromeEdit`, `ImportSyntax`, `CircularImports`):
  - reading the directives of a userChrome.css text, active and commented;
  - path normalization, membership, adding, toggling and removing directives;
  - the check for reference cycles between stylesheets.

  The two regular expressions of the program are replaced by a hand-written matcher that follows the
  backtracking order of Python's `re`.
- **Archives** (`Archive`):
  - the supported-extension table and the case-insensitive suffix test;
  - the unsafe-entry checks. ZIP and TAR refuse the whole archive before writing. The streaming
    extractor writes entry by entry;
  - the "produced no files" error, clean-up and the ZIP fallback;
  - the search for CSS files.
- **Install and uninstall** (`ImportService`):
  - URL dispatch;
  - single-file and archive installs: root-folder stripping, destination paths, the choice of the
    files that get a directive (userChrome.css first, else the entry-point files, else all);
  - merging the recorded file list;
  - toggling, and removing an import together with its bundle folder and registry record.
- **Records and stores** (`Models`, `ModRegistry`, `ConfigStore`, `FileManager`, `IsoDate`, `Json`):
  - the profile and bundle records;
  - the JSON registry of bundles with its upsert, lookup and removal by name;
  - the key/value settings file;
  - the file helpers' pre- and post-condition checks and the filename sanitizer.
- **Parsers and decision rules**:
  - `Url` and `Download`: URL validation, GitHub URL routing and the records built for it, header
    parsing;
  - `GitLab`: GitLab URL parsing;
  - `UpdateService`: the update-detection rules and the guards of `apply_update`;
  - `ManageImports`: the bulk toggle and remove operations of the manage-imports presenter.

The file system, the network and the clock are values passed in:
- the contents of files are maps from path to text;
- a transfer's outcome is a parameter;
- the current time is a `Stamp` argument.

Where the program updates an object's fields in place, the model has a `class` whose methods
`modify` those fields:
- `ModInfo`;
- the registry's `ModManager`;
- `ConfigStore`;
- `FileManager`'s file system;
- the download manager's written files;
- `ImportService`'s chrome folder;
- the presenter.

Everything else is functions over datatypes, sequences and maps. Paths follow POSIX `os.path`, with
`/` as the separator.

## Model

| member | source | states |
|---|---|---|
| Models.NewProfile | src/core/models.py:6-16 | a profile keeps its path and default flag; its name is never empty: the given name, else the folder's basename, else "Unnamed Profile" |
| Models.UserChromeLayout | src/core/models.py:18-24 | `chrome_dir` is the `chrome` folder of the profile and `userchrome_path` is the file `userChrome.css` directly inside it |
| Models.DirnameOfJoin | src/core/models.py:18-24 | joining a slash-free name onto a folder and splitting the result again gives back the folder and the name |
| Models.LastComponent | src/core/models.py:18-24 | a slash-free name joined onto a folder is the last component of the joined path, just after the separator `os.path.join` places |
| Models.NewImportEntry | src/core/models.py:78-83 | an `ImportEntry` built from a path alone is enabled and has no line number |
| Models.Filename | src/core/models.py:85-87 | the `filename` property is a slash-free suffix of the path |
| Models.AppendIfAbsent | src/core/models.py:51-53 | `add_file` keeps every old path, adds the new one at the end only when it is absent, and keeps a duplicate-free list duplicate-free |
| Models.DisplayVersionOf | src/core/models.py:55-68 | `display_version` is never empty: at most 8 leading characters of a set commit hash, else the version, else "Unknown" |
| Models.DisplayAfterSetCommitHash | src/core/models.py:60-76 | after `set_commit_hash(h)` the displayed version is the first 8 characters of `h` (or "Unknown" for an empty hash) |
| Models.ModInfo.constructor | src/core/models.py:41-49 | a new `ModInfo` holds exactly the given fields |
| Models.ModInfo.AddFile | src/core/models.py:51-53 | `add_file` appends the path only when absent, keeps the list duplicate-free and changes no other field |
| Models.ModInfo.DisplayVersion | src/core/models.py:60-68 | the displayed version of a `ModInfo` object is never empty |
| Models.ModInfo.SetCommitHash | src/core/models.py:70-76 | `set_commit_hash` stores the hash under `latest_commit`, sets the version to its first 8 characters, and leaves name, URL, date and files alone |
| IsoDate.IsoFormat | src/core/mod.py:111-113 | `isoformat()` writes 19 characters, or 26 when the microsecond is not 0 |
| IsoDate.FromIsoFormat | src/core/mod.py:74-78 | `fromisoformat` only ever yields a valid date |
| IsoDate.Checked | src/core/mod.py:74-78 | a parsed date is accepted exactly when the `datetime` constructor would accept its fields |
| IsoDate.IsoRoundTrip | src/core/mod.py:73-81 | reading back with `fromisoformat` what `isoformat` wrote gives the same valid date |
| Json.GetStr | src/core/models.py:55-58 | `metadata.get("latest_commit")` yields a hash exactly when the key holds a string |
| Json.Get | src/infrastructure/config_store.py:39-41 | `dict.get(key, default)`: the stored value for a present key, the default otherwise |
| ModRegistry.LoadOne | src/core/mod.py:72-81 | a stored entry becomes a record with the same name, URL, version, files and metadata; a non-empty date string is parsed with `fromisoformat`, and `now` replaces one that does not parse |
| ModRegistry.SaveOne | src/core/mod.py:108-115 | `_save_mods` writes each record unchanged except that its date becomes text |
| ModRegistry.LoadSaveOne | src/core/mod.py:73-81 | a settled record written by `_save_mods` and read back by `get_all_mods` is the same record |
| ModRegistry.LoadAll | src/core/mod.py:70-83 | `get_all_mods` converts the entries one by one and in order |
| ModRegistry.SaveAll | src/core/mod.py:106-115 | `_save_mods` dumps one dictionary per record, in order |
| ModRegistry.Loaded | src/core/mod.py:63-87 | a missing or unreadable mods file reads as the empty list; a readable one as its converted entries |
| ModRegistry.LoadSaveAll | src/core/mod.py:58-124 | saving settled records and loading them back gives the same list |
| ModRegistry.SettledWritable | src/core/mod.py:108-115 | every record a load produces can be written again |
| ModRegistry.RemoveWritable | src/core/mod.py:94-101 | dropping records by name keeps the rest writable |
| ModRegistry.LoadedSettled | src/core/mod.py:70-83 | what `get_all_mods` returns is settled: dates are valid `datetime`s or the kept falsy string |
| ModRegistry.FindByName | src/core/mod.py:51-56 | `get_mod_info` finds a record of exactly that name that is in the list, and finds none exactly when no record has that name |
| ModRegistry.RemoveNamedSpec | src/core/mod.py:97-98 | every record kept by `remove_mod`'s filter was in the list and has another name |
| ModRegistry.RemoveNamed | src/core/mod.py:97-98 | the filter of `remove_mod` never adds records: the result is no longer than the list |
| ModRegistry.RemoveNamedMembers | src/core/mod.py:97-98 | `remove_mod`'s filter keeps exactly the records with another name |
| ModRegistry.IndexOf | src/core/mod.py:32-35 | the loop of `save_mod_info` stops at the first record with the same name, or runs off the end |
| ModRegistry.UpsertShape | src/core/mod.py:31-38 | `save_mod_info` replaces the first record of that name in place, or appends the record when there is none |
| ModRegistry.UpsertFinds | src/core/mod.py:23-56 | after `save_mod_info(m)`, looking up `m.name` finds `m` |
| ModRegistry.UpsertOthers | src/core/mod.py:23-56 | `save_mod_info(m)` changes no lookup of another name |
| ModRegistry.RemoveNamedConcat | src/core/mod.py:97-98 | the filter of `remove_mod` works record by record, so the kept records stay in their order |
| ModRegistry.RemoveNamedOne | src/core/mod.py:97-98 | a single record is dropped exactly when it has that name |
| ModRegistry.RemoveNamedFind | src/core/mod.py:89-101 | after `remove_mod(name)` no record of that name is found and every other name is found as before |
| ModRegistry.FindLoaded | src/core/mod.py:48-83 | looking a name up in the loaded list gives the loaded form of the stored entry of that name |
| ModRegistry.FindSaved | src/core/mod.py:103-119 | looking a name up in what `_save_mods` writes gives the written form of the record of that name |
| ModRegistry.UpsertRecord | src/core/mod.py:31-38 | the for/else loop of `save_mod_info` computes the upsert |
| ModRegistry.UpsertWritable | src/core/mod.py:23-41 | upserting a writable record into writable records leaves them writable |
| ModRegistry.SaveThenGet | src/core/mod.py:23-119 | `save_mod_info(m)` then `get_mod_info(m.name)` yields `m`, with the date gone through `isoformat` and `fromisoformat` |
| ModRegistry.NotSet | src/core/mod.py:25-26 | an operation without a mods file path fails with `FileOperationError` |
| ModRegistry.ModManager.constructor | src/core/mod.py:11-12 | a new manager has no mods file path |
| ModRegistry.ModManager.SetModsFile | src/core/mod.py:14-21 | `set_mods_file` records the path and leaves the file alone |
| ModRegistry.ModManager.GetAllMods | src/core/mod.py:58-87 | `get_all_mods` fails when no path is set, else yields the loaded list (empty for a missing or unreadable file) |
| ModRegistry.ModManager.GetModInfo | src/core/mod.py:43-56 | `get_mod_info` fails when no path is set, else yields the first loaded record of exactly that name |
| ModRegistry.ModManager.SaveModInfo | src/core/mod.py:23-41 | `save_mod_info` fails without a path and writes nothing; otherwise it writes the loaded list with `m` upserted |
| ModRegistry.ModManager.RemoveMod | src/core/mod.py:89-101 | `remove_mod` fails without a path and writes nothing; otherwise it writes the loaded list without the records of that name |
| ModRegistry.ModManager.SaveMods | src/core/mod.py:103-121 | `_save_mods` writes the records with their dates as text and keeps the path |
| ConfigStore.LoadConfig | src/infrastructure/config_store.py:18-28 | `_load_config` yields the stored object, or `{}` for a missing or corrupt file |
| ConfigStore.Holds | src/infrastructure/config_store.py:85-88 | `name in installations` tests the keys of an object, the items of a list and the substrings of a string, and raises `TypeError` for a number, a boolean or `None` |
| ConfigStore.ProfileChoice | src/infrastructure/config_store.py:68-73 | the stored last-profile record has exactly the keys `installation` and `profile`, holding the two names |
| ConfigStore.ConfigStore.constructor | src/infrastructure/config_store.py:9-11 | a new store holds what `_load_config` read |
| ConfigStore.ConfigStore.SaveConfig | src/infrastructure/config_store.py:30-35 | `_save_config` writes the configuration as it is and reports success |
| ConfigStore.ConfigStore.Get | src/infrastructure/config_store.py:39-41 | `get` returns the stored value of a present key and the default of an absent one |
| ConfigStore.ConfigStore.GetSection | src/infrastructure/config_store.py:55-57 | `get_section` returns the stored section, or `{}` |
| ConfigStore.ConfigStore.GetLastSelectedProfile | src/infrastructure/config_store.py:64-66 | `get_last_selected_profile` returns the stored record, or `None` |
| ConfigStore.ConfigStore.GetInstallations | src/infrastructure/config_store.py:75-77 | `get_installations` returns the stored value, or `{}` |
| ConfigStore.ConfigStore.Set | src/infrastructure/config_store.py:43-46 | after `set(k, v)`, `get(k)` is `v`, every other key is unchanged, and the file holds the new configuration |
| ConfigStore.ConfigStore.SetSection | src/infrastructure/config_store.py:59-62 | `set_section` binds the section and saves |
| ConfigStore.ConfigStore.Remove | src/infrastructure/config_store.py:48-53 | `remove` deletes and saves only a present key; for an absent key it writes nothing; either way it reports success and the key is gone |
| ConfigStore.ConfigStore.SetLastSelectedProfile | src/infrastructure/config_store.py:68-73 | after `set_last_selected_profile`, `get_last_selected_profile` returns the pair |
| ConfigStore.ConfigStore.AddInstallation | src/infrastructure/config_store.py:79-83 | `add_installation` binds the name to the path inside `installations` and keeps the other names; a stored value that is not an object raises `TypeError` and changes nothing |
| ConfigStore.ConfigStore.RemoveInstallation | src/infrastructure/config_store.py:85-91 | `remove_installation` deletes and saves only a name present in an object; an absent name writes nothing and returns `True`; for any other value nothing changes, and the answer is `True` exactly when the membership test says no (a list or string holding the name fails deleting it, a number, boolean or `None` fails the test), every failure a `TypeError` |
| FileManager.SanitizeChar | src/infrastructure/file_manager.py:160-162 | a replaced character is never one of `<>:"/\|?*`, and any other character is kept |
| FileManager.Sanitized | src/infrastructure/file_manager.py:157-164 | `sanitize_filename` keeps the length and works character by character |
| FileManager.SanitizedClean | src/infrastructure/file_manager.py:157-164 | a sanitized name holds none of the invalid characters, and sanitizing twice is sanitizing once |
| FileManager.SanitizeFilename | src/infrastructure/file_manager.py:157-164 | the loop of one `replace` per invalid character computes the character-wise sanitization |
| FileManager.FileExtension | src/infrastructure/file_manager.py:166-169 | `get_file_extension` is empty or starts with '.', is no longer than the path, holds no '/', and has no upper-case ASCII letter |
| FileManager.FileExtensionOf | src/infrastructure/file_manager.py:166-169 | `get_file_extension` of `stem.ext` is ".ext" lower-cased, for a slash-free stem that is not all dots and a dot-free `ext` |
| FileManager.Ancestors | src/infrastructure/file_manager.py:10-13 | the directories `os.makedirs` may create include the path itself |
| FileManager.FileManager.constructor | src/infrastructure/file_manager.py:7-8 | a manager works on the given file system |
| FileManager.FileManager.CreateDirectory | src/infrastructure/file_manager.py:10-24 | `create_directory` succeeds exactly when the path is non-empty and no file stands where a directory must go; it then adds the missing directories and nothing else; on failure nothing changes and the error reads "Failed to create directory <path>: " followed by the `OSError` of `os.makedirs` (`MakedirsError`: errno 2 for "", errno 17 when the path itself is a file, errno 20 naming the first directory it tries to create under a file) |
| FileManager.MakedirsUnderFile | src/infrastructure/file_manager.py:10-24 | creating `a/b/c` where `a` is a file fails with "[Errno 20] Not a directory: 'a/b'", the first directory `makedirs` tries to create |
| FileManager.FileManager.CopyFile | src/infrastructure/file_manager.py:26-67 | `copy_file` raises "Source file does not exist: " with the source path, "Destination file already exists: " with the destination path when `overwrite` is off, and, wrapped by its `except` as "Failed to copy file: …": the `create_directory` error for the destination's folder, "[Errno 21] Is a directory: '<source>'" when the source is a directory, and "Copy verification failed: Size mismatch - source: N, destination: M" with both sizes in decimal when the copied size differs; it succeeds exactly when none of these happens, and then the destination holds a file of the source's size |
| FileManager.FileManager.RemoveFile | src/infrastructure/file_manager.py:99-111 | `remove_file` succeeds on an absent path without change, raises for a directory, and otherwise removes just that file |
| FileManager.FileManager.RemoveDirectory | src/infrastructure/file_manager.py:113-131 | `remove_directory` succeeds on an absent path without change, raises for a file, and otherwise removes the directory and everything below it |
| FileManager.FileManager.CleanupEmptyFolders | src/infrastructure/file_manager.py:171-193 | `cleanup_empty_folders` returns 0 for a root that is not a directory; otherwise it removes exactly the directories below the root that were empty when the walk began, and returns their number |
| FileManager.FileManager.RemoveEmptyAmong | src/infrastructure/file_manager.py:184-191 | the walk loop removes exactly the directories of the walk below the root that were empty when it began, and counts them |
| FileManager.EmptyAmongMember | src/infrastructure/file_manager.py:184-188 | a directory is removed during the walk exactly when it is listed, is not the root, and is empty |
| FileManager.EmptyAmongStep | src/infrastructure/file_manager.py:184-188 | each step of the walk removes and counts the visited directory exactly when it is empty and not the root |
| FileManager.EmptyAmongAll | src/infrastructure/file_manager.py:180-193 | a walk that lists every directory at or below the root removes exactly the empty ones below the root |
| FileManager.UnderNotSelf | src/infrastructure/file_manager.py:185 | a path strictly inside a directory is not that directory |
| GitLab.NewGitLabApi | src/infrastructure/gitlab_api.py:11-12 | the constructor keeps the instance URL up to its trailing '/' characters, which it strips all of |
| GitLab.NewGitLabApiTrimmed | src/infrastructure/gitlab_api.py:11-12 | stripping the trailing '/' characters is idempotent |
| GitLab.GetDownloadUrl | src/infrastructure/gitlab_api.py:91-94 | `get_download_url` starts with `{instance}/api/v4/projects/` and ends with `/repository/archive.zip?ref={ref}` |
| GitLab.DownloadUrlParses | src/infrastructure/gitlab_api.py:11-12 | `urlparse` of a download URL built on a plain instance finds that host, the archive path of the project and the query `ref={ref}` with tabs and line breaks of `ref` deleted |
| GitLab.RefQueryClean | src/infrastructure/gitlab_api.py:11-12 | the clean-up of `ref={ref}` deletes only from `ref` |
| GitLab.TrimmedInstance | src/infrastructure/gitlab_api.py:11-12 | a `scheme://host` instance with a plain host is kept as it is |
| GitLab.DownloadUrlShape | src/infrastructure/gitlab_api.py:91-94 | the download URL is the instance, the archive path, '?' and the `ref` query |
| GitLab.ArchivePathPlain | src/infrastructure/gitlab_api.py:91-94 | the archive path holds no '?', '#', ';', tab or line break, so `urlparse` keeps it whole |
| GitLab.NonEmptyParts | src/infrastructure/gitlab_api.py:129 | `[p for p in parts if p]` keeps exactly the non-empty parts |
| GitLab.Segments | src/infrastructure/gitlab_api.py:129 | the path segments are non-empty and slash-free |
| GitLab.ProjectOf | src/infrastructure/gitlab_api.py:134-160 | the project path is the first two segments, or segments 2-3 after a leading '-'; the branch is segment 4 after `blob` or `tree`, else `main`; a file path exists exactly for `blob` URLs with more than 4 segments and is the rest of the segments |
| GitLab.ParseGitlabUrl | src/infrastructure/gitlab_api.py:111-163 | `parse_gitlab_url` raises `DownloadError` without the word `gitlab`, for a `urlparse` failure and for fewer than two segments, and otherwise returns the instance `scheme://netloc` with what `ProjectOf` reads off the segments |
| GitLab.ParseBlobUrl | src/infrastructure/gitlab_api.py:111-163 | a blob URL built from an instance, a group, a project, a branch and file segments parses back into them |
| GitLab.ParsePlainUrl | src/infrastructure/gitlab_api.py:111-163 | a URL whose path is made of plain segments parses to what `ProjectOf` reads off those segments |
| GitLab.BlobProject | src/infrastructure/gitlab_api.py:134-153 | for `group/project/blob/branch/file…` the project path is `group/project`, the branch is `branch`, and the file path is the joined file segments |
| GitLab.SegmentsOfPath | src/infrastructure/gitlab_api.py:129 | the segments of '/' followed by a '/'-join of non-empty parts are those parts |
| GitLab.NonEmptyPartsKeep | src/infrastructure/gitlab_api.py:129 | the filter keeps a list that has no empty part |
| GitLab.PlainSegmentsPath | src/infrastructure/gitlab_api.py:123 | '/' before a join of plain segments is a path `urlparse` keeps whole |
| Url.UrlParse | src/core/download.py:36-42 | `urlparse` splits the cleaned-up text (`Stripped`), keeps separators out of the network location and '?' and '#' out of the path, and raises `ValueError` exactly when the network location of the cleaned-up text holds one bracket without the other |
| Url.LStripC0 | src/core/download.py:36-42 | `lstrip` of the C0 controls and space removes exactly a leading run of them: what is left starts with none |
| Url.DropUnsafe | src/core/download.py:36-42 | deleting tab, carriage return and line feed leaves none of them and keeps a first character that is not one |
| Url.Stripped | src/core/download.py:36-42 | the text `urlsplit` goes on to split holds no tab or line break and does not start with a control character or space |
| Url.DropUnsafeAppend | src/core/download.py:36-42 | the deletion works character by character: it commutes with concatenation |
| Url.DropUnsafeSafe | src/core/download.py:36-42 | a text without tabs and line breaks is left as it is |
| Url.StrippedKeeps | src/core/download.py:36-42 | every character of the cleaned-up text was in the URL |
| Url.StrippedTwice | src/core/download.py:36-42 | the clean-up is idempotent |
| Url.ParseStripped | src/core/download.py:36-42 | parsing the cleaned-up text gives what parsing the URL gives |
| Url.LeadingIgnored | src/core/download.py:36-42 | a control character or space in front of a URL does not change its parse (`" https://…"` has the scheme `https`) |
| Url.UnsafeIgnored | src/core/download.py:36-42 | a tab or line break after the first character does not change the parse |
| Url.HostClean | src/core/download.py:36-42 | on `scheme://host` followed by any tail, the clean-up touches only the tail |
| Url.ComposedClean | src/core/download.py:36-42 | the clean-up leaves `scheme://host` followed by a tail without tabs and line breaks unchanged |
| Url.ParseOnHost | src/core/download.py:36-42 | whatever follows a plain host from a '/' on, the parse finds the scheme and that host |
| Url.SchemeFound | src/core/download.py:36-42 | a parse that finds a scheme found a ':' in the URL itself |
| Url.ParseComposed | src/core/download.py:36-42 | `urlparse` takes `scheme://host/path` apart into the scheme, the host and the path it was built from |
| Url.ParseComposedQuery | src/core/download.py:36-42 | the same with a query string after the path; the query comes back without its tabs and line breaks |
| Url.SplitFirst | src/core/download.py:36-42 | `s.split(c, 1)` gives the text before the first `c` and the text after it |
| Url.NetlocEnd | src/core/download.py:36-42 | the network location runs up to the first '/', '?' or '#' |
| Url.SchemeEnd | src/core/download.py:36-42 | a scheme is a letter followed by scheme characters up to the first ':' |
| Paths.Basename | src/core/models.py:85-87 | `os.path.basename` is the slash-free end of the path |
| Paths.BasenameOf | src/core/models.py:85-87 | the base name of `dir/name` is `name` for every slash-free `name` |
| Paths.Dirname | src/core/archive.py:184 | `os.path.dirname` is a prefix of the path: empty exactly when the path has no '/', without a trailing '/' unless all slashes, and only slashes between it and the last '/' |
| Paths.RStripSlashes | src/infrastructure/gitlab_api.py:11-12 | `rstrip('/')` removes all and only the trailing '/' characters |
| Paths.PathJoin | src/core/models.py:18-24 | `os.path.join(a, b)` ends with `b` |
| Paths.Extension | src/infrastructure/file_manager.py:166-169 | `os.path.splitext(p)[1]` is empty, or a '.'-suffix of the path without '/' |
| Paths.ExtensionOf | src/infrastructure/file_manager.py:166-169 | a file name `stem.ext` whose stem is slash-free and not all dots has the extension `.ext` |
| Paths.ExtensionIgnoresDirs | src/infrastructure/file_manager.py:166-169 | a dot in a directory name is no extension: `dir/name` with a dot-free `name` has none |
| Paths.NormPathTwo | src/application/import_service.py:496-497 | `normpath` leaves a relative path of two plain components as it is |
| Paths.NormPathDot | src/application/import_service.py:496-497 | `normpath` drops a "." between two plain components |
| Strings.Lower | src/core/archive.py:41-52 | `lower()` on ASCII letters: same length, no upper-case letter left, upper-case letters mapped to lower case, other characters kept |
| Strings.LowerTwice | src/core/archive.py:41-52 | lower-casing is idempotent, so comparing lower-cased names is stable |
| Strings.Split | src/application/import_service.py:646-652 | every part of `s.split(sep)` lacks the separator, and there is at least one part |
| Strings.JoinSplit | src/infrastructure/gitlab_api.py:139-141 | joining the parts of a split with the separator gives the text back |
| Strings.SplitJoin | src/infrastructure/gitlab_api.py:139-153 | splitting a join of separator-free parts gives the parts back |
| Strings.SplitLastAfter | src/core/download.py:182 | whatever precedes a separator, the last part of a split is the last part of what follows it |
| Strings.NatToString | src/application/import_service.py:472-474 | `str(n)` of a natural number is a non-empty string of decimal digits |
| ImportService.UrlSourceRule | src/application/import_service.py:45-66 | a URL is refused exactly when it is invalid; a valid URL goes to the GitHub importer iff it contains "github.com", to GitLab iff it contains "gitlab.com" but not "github.com", and to a direct download otherwise |
| ImportService.UrlSource | src/application/import_service.py:55-66 | an import URL is dispatched exactly when `validate_url` accepts it, a refusal is a `ValidationError`, and only a URL containing "github.com" goes to the GitHub importer |
| ImportService.GithubUrlsGoToGithub | src/application/import_service.py:59-60 | every `https://github.com/...` URL reaches the GitHub importer |
| ImportService.TargetsOf | src/application/import_service.py:494-497 | a stylesheet's imports resolve to one target each |
| ImportService.TargetsOfAt | src/application/import_service.py:494-497 | the k-th target is the k-th import path joined onto the stylesheet's folder and normalized |
| ImportService.RefsOf | src/application/import_service.py:486-505 | only files that could be read contribute imports; unreadable files are skipped |
| ImportService.Keep | src/application/import_service.py:508 | the kept files are exactly the listed files outside the marked set, in order |
| ImportService.ImportedAmongSpec | src/application/import_service.py:483-501 | a file is in `imported_by_others` exactly when it is listed and some readable listed file has an import resolving to it |
| ImportService.MainFilesSpec | src/application/import_service.py:480-508 | the main CSS files are exactly the listed files that no readable listed file imports, and there are no more of them than listed files |
| ImportService.MarkImported | src/application/import_service.py:494-501 | the inner loop marks exactly the listed files among one stylesheet's import targets |
| ImportService.KeepUnmarked | src/application/import_service.py:508 | the final filter returns exactly the listed files not marked, in listing order |
| ImportService.FindMainCssFiles | src/application/import_service.py:480-508 | `_find_main_css_files` returns the main files as specified by `MainFilesSpec` |
| ImportService.SingletonMember | src/application/import_service.py:364 | a set of size one has only the one member, so `next(iter(repo_dirs))` is well defined |
| ImportService.SegmentsSpec | src/application/import_service.py:358-362 | `repo_dirs` holds the first segment of every relative path and nothing else |
| ImportService.SegmentsSingleton | src/application/import_service.py:358-364 | there is a repository root exactly when all relative paths share their first segment, and then `repo_dirs` is that root alone |
| ImportService.RepoRoot | src/application/import_service.py:358-364 | the loop computes the repository root: the one common first segment, else none |
| ImportService.FirstSegmentPrefix | src/application/import_service.py:361 | a path with a separator starts with its first segment followed by '/' |
| ImportService.WrapperStripped | src/application/import_service.py:371-373 | with a common wrapper folder, each path with a folder is the wrapper, '/', and the placed path |
| ImportService.BundleOwnsImportPath | src/application/import_service.py:347-349 | every directive path of an archive install is the sanitized mod name, '/', and the placed path with backslashes turned into '/', so its first segment is the bundle folder |
| ImportService.RelsOf | src/application/import_service.py:369 | one relative path per listed file |
| ImportService.StripAll | src/application/import_service.py:371-373 | one placed path per relative path |
| ImportService.PlacedOf | src/application/import_service.py:367-373 | one placed path per listed file |
| ImportService.PlacedOfAt | src/application/import_service.py:367-373 | the i-th file is placed at its path below the extraction folder with the common wrapper folder dropped |
| ImportService.RelsOfAt | src/application/import_service.py:369 | the i-th relative path is the i-th file's path below the extraction folder |
| ImportService.StripAllAt | src/application/import_service.py:371-373 | the wrapper folder is dropped from each path independently |
| ImportService.ImportPathsFrom | src/application/import_service.py:386-387 | one recorded import path per placed file |
| ImportService.ImportPathsFromAt | src/application/import_service.py:386-387 | the i-th recorded path is the directive path of the i-th placed file |
| ImportService.TargetsFrom | src/application/import_service.py:376 | one copy target per placed file |
| ImportService.TargetsFromAt | src/application/import_service.py:376 | the i-th target is the i-th placed path joined onto the bundle folder |
| ImportService.CopiedSetSpec | src/application/import_service.py:383 | after n copies, the files created are exactly the first n targets |
| ImportService.FirstFailed | src/application/import_service.py:367-383 | the copy loop stops at the first file whose copy raises: no earlier file fails, and the stopping file does fail |
| ImportService.FirstFailedAt | src/application/import_service.py:367-383 | the first failing index is unique: it is the one index with no failure before it |
| ImportService.UserChromeFiles | src/application/import_service.py:330 | the userChrome files are exactly the listed files whose lower-cased basename is `userchrome.css` |
| ImportService.NoUserChromeFiles | src/application/import_service.py:330 | without a userChrome.css among the listed files the filter is empty |
| ImportService.DirectiveUserChrome | src/application/import_service.py:428-436 | when a userChrome.css is listed, exactly the userChrome.css files get a directive |
| ImportService.DirectiveMain | src/application/import_service.py:437-449 | otherwise, when some file is imported by no other, exactly the files imported by no other get a directive |
| ImportService.DirectiveAll | src/application/import_service.py:440-441 | otherwise, when every file is imported by another, all listed files get a directive |
| ImportService.DirectiveFilesSpec | src/application/import_service.py:428-449 | the three cases of the directive choice together |
| ImportService.FindUserChromeFiles | src/application/import_service.py:330 | the list comprehension as a loop computes the userChrome filter |
| ImportService.PlaceholderEmpty | src/application/import_service.py:515-516 | the placeholder text holds no import |
| ImportService.WithImportHas | src/application/import_service.py:510-528 | after `_update_userchrome(p)` the file exists and imports `p`, and a file that already imported `p` is left unchanged |
| ImportService.WithImportsLast | src/application/import_service.py:430-449 | after a run of directive updates the file exists and imports the last path |
| ImportService.AppendAll | src/application/import_service.py:462-469 | appending the paths not yet listed keeps the old list as a prefix, adds exactly the new paths, and keeps a duplicate-free list duplicate-free |
| ImportService.Remaining | src/application/import_service.py:660-664 | there are no more remaining imports than imports |
| ImportService.RemainingSpec | src/application/import_service.py:660-664 | `remaining_imports` holds exactly the import paths whose first segment is the mod name |
| ImportService.OutsideFolder | src/application/import_service.py:669-699 | deleting the bundle folder keeps exactly the files outside it |
| ImportService.DropBundle | src/application/import_service.py:701-706 | dropping the bundle's records keeps exactly the records whose sanitized name is not the folder |
| ImportService.Uninstall | src/application/import_service.py:633-713 | the corrected removal: it succeeds exactly when userChrome.css exists, is non-empty and imports the path; a refused removal changes nothing; a successful one rewrites userChrome.css without the lines of the path's directives |
| ImportService.UninstallClearsBundle | src/application/import_service.py:666-708 | a removal that deletes files deletes the path's whole bundle folder; as the program runs, the registry then keeps exactly the records not named like the path's first segment, and in the corrected removal no record of a mod installed into the folder is left |
| ImportService.RemovedClearsBundle | src/application/import_service.py:666-710 | the same two statements for the step after the directive lines are removed, whatever the new text |
| ImportService.UninstallAsWritten | src/application/import_service.py:633-713 | `remove_import` as the program runs it: it succeeds exactly when userChrome.css exists, is non-empty and imports the path; a refused removal changes nothing; a successful one writes the text `remove_import` of userchrome.py computes, and when it purges, userChrome.css is gone exactly when the sanitized first segment is "", ".", ".." or `userChrome.css` itself (the deleted join is the chrome folder, the profile folder or the file) |
| ImportService.UninstallPurging | src/application/import_service.py:666-708 | as the program runs, when no remaining import is in the bundle, the removal reports the purge and drops the records named like the first segment; for a sanitized segment "", "." or ".." it deletes userChrome.css and every chrome file, otherwise the files below that folder, and userChrome.css only when that is the folder's name |
| ImportService.UninstallPurgingCorrected | src/application/import_service.py:666-708 | in the corrected removal, when no remaining import is in the bundle, the purge is reported, the folder deleted and the records of the mods installed into it dropped |
| ImportService.DropBundleByName | src/application/import_service.py:701-706 | dropping a folder's records and dropping records by name give the same registry when they select the same records |
| ImportService.UninstallAgrees | src/application/import_service.py:633-713 | the program's removal and the corrected one have the same outcome when the path is matched once, its sanitized first segment names a folder inside the chrome folder other than userChrome.css, and the records named like that segment are exactly those installed into its folder |
| ImportService.UninstallKeepsChrome | src/application/import_service.py:666-699 | the corrected removal keeps userChrome.css, deletes no file outside the bundle folder of the path, and deletes nothing for a first segment "", "." or ".." |
| ImportService.DotSegmentWipesChrome | src/application/import_service.py:666-699 | as written, removing `./x.css` from a file holding only its directive deletes userChrome.css and every chrome file, and still reports success |
| ImportService.DotSegmentKeepsFiles | src/application/import_service.py:666-699 | corrected, the same removal empties userChrome.css and keeps every chrome file |
| ImportService.ModNameOf | src/application/import_service.py:648 | the mod name read off an import path is its first segment |
| ImportService.UninstallRetaining | src/application/import_service.py:709-710 | as the program runs, when other imports of the bundle remain, only userChrome.css changes and the folder-retained message is returned |
| ImportService.UninstallRetainingCorrected | src/application/import_service.py:709-710 | in the corrected removal, when other imports of the bundle remain, only userChrome.css changes and the folder-retained message is returned |
| ImportService.OwnLineDirective | src/application/import_service.py:642-654 | in a clean stylesheet (`UserChromeEdit.Clean`: no free text that can begin an `@import` or join a comment with a directive) whose only directive of the path stands alone on its line, the path is found and both removals leave exactly the text around that line |
| ImportService.RemoveLastDirectivePurges | src/application/import_service.py:633-708 | when the text around a bundle's only directive holds no '@' and no '*' and the directive stands alone on its line, both removals leave that text and purge; the program deletes the join of the chrome folder and the sanitized first segment (`FilesAfterDelete`, `UserChromeAfterDelete`) and drops the records named like the segment; the corrected removal deletes only a bundle folder (`FilesAfterPurge`) and drops the records of the mods installed into it |
| ImportService.SoleDirectivePurges | src/application/import_service.py:633-708 | removing the directive that is the whole file empties it and purges; the program deletes the join of the chrome folder and the sanitized first segment and drops the records named like it, the corrected removal keeps userChrome.css, deletes only a bundle folder and drops the records of the mods installed into it |
| ImportService.OddUninstall | src/application/import_service.py:633-708 | removing the only directive of `a_b/x.css` empties the file and deletes everything in folder "a_b", in both removals |
| ImportService.RegistryRecordOrphaned | src/application/import_service.py:701-706 | as written, removing the only import of the mod "a:b" deletes its folder "a_b" but leaves the mod's record in the registry |
| ImportService.RegistryRecordDropped | src/application/import_service.py:701-706 | corrected, the same removal also drops the record of the mod "a:b" |
| ImportService.InstalledBundleRemovable | src/application/import_service.py:347-387 | every path installed for a mod has, as first segment, a name that sanitizes to the mod's folder; the program's removal then drops the mod's records exactly when its name needed no sanitizing, the corrected removal always |
| ImportService.EnabledFrom | src/application/import_service.py:739-745 | a reported enabled state comes from some import whose path matches and is enabled |
| ImportService.FindEnabled | src/application/import_service.py:739-745 | the loop returns the enabled flag of the first import whose normalized path matches, or false |
| ImportService.Toggle | src/application/import_service.py:715-748 | a toggle succeeds exactly when userChrome.css exists, is non-empty and imports the path; a refused toggle reports disabled and changes nothing; a toggle never changes files or records |
| ImportService.ToggleTwiceRestores | src/application/import_service.py:715-748 | two successful toggles of the same import give back userChrome.css as it was, for a stylesheet of canonical directives and free text in which no directive can begin (each '@' breaks "@import" within the text, each comment opening is followed by more than spaces, and the text does not start, after spaces, with '*') |
| ImportService.ImportService.constructor | src/application/import_service.py:30-43 | the service starts on the given userChrome.css, chrome files and registry |
| ImportService.ImportService.UpdateUserChrome | src/application/import_service.py:510-528 | `_update_userchrome` reports success and rewrites userChrome.css as `WithImport`, leaving files and registry alone |
| ImportService.ImportService.UpdateUserChromeAll | src/application/import_service.py:428-449 | updating for each path in turn gives `WithImports` |
| ImportService.ImportService.ImportSingleFile | src/application/import_service.py:278-322 | a failing copy reports the error and changes nothing; otherwise the sanitized basename is copied, imported and recorded (a new record, or appended to the given one when absent), and the registry holds the record |
| ImportService.ImportService.CopyFile | src/application/import_service.py:292 | a copy adds its target to the chrome files and nothing else |
| ImportService.ImportService.CopyBundle | src/application/import_service.py:367-387 | the copy loop stops at the first failure and reports it, has copied exactly the targets before it, and when nothing fails has collected every import path |
| ImportService.ImportService.SelectDirectiveFiles | src/application/import_service.py:428-449 | computes the directive choice specified by `DirectiveFilesSpec` |
| ImportService.ImportService.ImportExtractedFiles | src/application/import_service.py:324-477 | a failing copy reports the error, keeps the files copied so far and changes nothing else; otherwise every file is placed below the sanitized mod folder, the chosen directives are added, and the placed paths are recorded for the mod |
| ImportService.ImportService.RegisterBundle | src/application/import_service.py:426-472 | after a complete copy, the directives are added and the record is created or extended by the new paths |
| ImportService.ImportService.PlanBundle | src/application/import_service.py:357-449 | computes the placement and the directive paths |
| ImportService.ImportService.RecordBundle | src/application/import_service.py:454-469 | creates a record with the placed paths, or appends the placed paths not yet listed to the given record |
| ImportService.ImportService.RemainingImports | src/application/import_service.py:660-664 | the loop computes `remaining_imports` |
| ImportService.ImportService.RemoveImport | src/application/import_service.py:633-713 | the outcome and new state of a removal are `UninstallAsWritten` of the old state |
| ImportService.ImportService.WriteRemoval | src/application/import_service.py:656-710 | once the directive lines are cut, the write, the remaining-import check, the folder deletion and the record removal give `RemovedAsWritten` of the old state |
| ImportService.ImportService.DeleteModDir | src/application/import_service.py:666-699 | deleting the join of the chrome folder and `folder` takes every chrome file and userChrome.css for "", "." or "..", otherwise exactly the files below the folder, and userChrome.css only when it is the folder's name; the registry is untouched |
| ImportService.ImportService.ToggleImport | src/application/import_service.py:715-748 | the outcome and new state of a toggle are `Toggle` of the old state |
| UpdateService.SourceOf | src/application/update_service.py:44-62 | a record without a source URL is unknown; one whose URL contains "github.com" is checked as GitHub; GitLab only when "gitlab.com" occurs and "github.com" does not |
| UpdateService.CheckMod | src/application/update_service.py:44-64 | every result carries the source type its URL selects, and a record without a source URL gets the fixed "No source URL" result |
| UpdateService.LastNamed | src/application/update_service.py:43-64 | the index found names a record of that name and no later record has it |
| UpdateService.KeyedSpec | src/application/update_service.py:43-64 | after n records a name is a key exactly when one of them has it, and its value is the check of the last of them |
| UpdateService.ResultsSpec | src/application/update_service.py:25-66 | `check_for_updates` has a key for exactly the registered names, and each value is the check of the last record with that name |
| UpdateService.CheckForUpdates | src/application/update_service.py:25-66 | `check_for_updates` returns the results map specified by `ResultsSpec`: a key per registered name, holding the check of the last record of that name |
| UpdateService.CheckAll | src/application/update_service.py:43-64 | the `for mod in mods` loop binds each name to the check of its record, a later record overwriting an earlier one of the same name |
| UpdateService.AllOf | src/application/update_service.py:167-176 | `all_files_changed` lists every changed file, in order |
| UpdateService.CssOf | src/application/update_service.py:167-180 | `css_files_changed` lists exactly the changes classified as CSS, and is empty exactly when none is |
| UpdateService.Classify | src/application/update_service.py:164-180 | the loop fills both lists as `CssOf` and `AllOf` |
| UpdateService.Decide | src/application/update_service.py:121-243 | a stored commit equal to the latest means up to date; no stored commit means an update; a failed comparison means an update without details; otherwise an update exactly when some change is CSS, with the CSS changes as diff, else all changes |
| UpdateService.RepoFromParts | src/application/update_service.py:90-101 | a URL with fewer than two parts after "github.com/" is refused; otherwise owner and repo are the first two parts, and the branch is the fourth part after "blob" or "tree", else "main" |
| UpdateService.GithubTarget | src/application/update_service.py:87-114 | a mod typed "github" in its metadata is checked exactly when it has an owner and a repository; any other mod needs "github.com/" in its URL; every refusal is a `ValidationError` |
| UpdateService.TreeUrlBranch | src/application/update_service.py:90-101 | a URL `owner/repo/tree/branch` (or `blob`) names that owner, repository and branch |
| UpdateService.GithubClassified | src/application/update_service.py:167-180 | each GitHub change keeps its filename and status and counts as CSS when its filename ends in ".css" in any case |
| UpdateService.NoCssMessage | src/application/update_service.py:192 | the message for changes without CSS starts "No CSS changes (only ", closes with ')', and ends in "...)" when more than three files changed |
| UpdateService.GithubCssRule | src/application/update_service.py:68-251 | with a different stored commit and a comparison, a GitHub mod has an update exactly when some changed filename ends in ".css", and the diff lists the CSS changes then, all changes otherwise |
| UpdateService.GithubCheck | src/application/update_service.py:68-251 | a GitHub update is reported only when the repository is known, the latest commit was fetched, and the stored commit is missing or differs from it |
| UpdateService.GithubStoredCommit | src/application/update_service.py:121-131 | a stored commit equal to the latest means no update; no stored commit means an update |
| UpdateService.DiffStatus | src/application/update_service.py:350-367 | a GitLab diff from /dev/null is added under its new path, one to /dev/null is removed under its old path, one between different paths is renamed as "old → new", and otherwise modified |
| UpdateService.GitlabNewCssCounts | src/application/update_service.py:375-377 | a GitLab change whose new path ends in ".css" counts as CSS whatever its status |
| UpdateService.GitlabRemovedCssCounts | src/application/update_service.py:358-377 | a deleted stylesheet counts as CSS through its displayed old path |
| UpdateService.GitlabClassified | src/application/update_service.py:350-377 | each GitLab diff is classified by its status and displayed name, and counts as CSS by the GitLab rule |
| UpdateService.GitlabTarget | src/application/update_service.py:274-297 | a mod typed "gitlab" is checked exactly when its metadata has a project id; any other mod exactly when its URL parses as a GitLab URL and the project lookup succeeds; every refusal is a `ValidationError` |
| UpdateService.GitlabCheck | src/application/update_service.py:253-450 | a GitLab update is reported only when the project is known, the latest commit was fetched, and the stored commit is missing or differs from it |
| UpdateService.GitlabCssRule | src/application/update_service.py:253-450 | with a different stored commit and a comparison, a GitLab mod has an update exactly when some diff counts as CSS, and the diff lists the CSS changes then, all changes otherwise |
| UpdateService.DirectRule | src/application/update_service.py:452-517 | a direct-URL mod has an update exactly when the headers could be read and a stored ETag or Last-Modified differs from a header of that name that is present |
| UpdateService.DirectCheck | src/application/update_service.py:452-517 | with neither ETag nor Last-Modified stored the answer is "No previous version information available"; an update is reported only when the headers were read, with one of the two change messages and the note that direct URLs have no detailed diff |
| UpdateService.ApplyGuard | src/application/update_service.py:519-555 | `apply_update` goes on to the update step of the mod's source exactly when the mod is registered, has a source URL, and its check reports an update; otherwise it fails with "Mod not found", "No source URL for this mod" or "Already up to date" |
| ManageImports.NonEmpty | src/ui/presenters/manage_imports_presenter.py:123-125 | there are no more non-empty paths than paths |
| ManageImports.FoldAppend | src/ui/presenters/manage_imports_presenter.py:123-133 | the bulk loop over two lists of paths is the loop over the first, continued over the second from where it stopped, with the counts added |
| ManageImports.FoldCounts | src/ui/presenters/manage_imports_presenter.py:119-139 | a bulk loop (`ManageImports.Fold`) counts at most one success per non-empty path, and with no success the state is where it started |
| ManageImports.FoldStuck | src/ui/presenters/manage_imports_presenter.py:123-133 | when no path can succeed, the loop changes nothing and counts nothing |
| ManageImports.FoldStep | src/ui/presenters/manage_imports_presenter.py:123-133 | each further path either succeeds, moving the state and adding one to the count, or leaves both as they were |
| ManageImports.ToggleFold | src/ui/presenters/manage_imports_presenter.py:161-179 | the toggle loop toggles a path when the running text imports it: at most one toggle per non-empty path, and with none the text is the one read |
| ManageImports.FoldTwice | src/ui/presenters/manage_imports_presenter.py:165-177 | two successes on the same path are two moves in a row |
| ManageImports.ToggleSameTwice | src/ui/presenters/manage_imports_presenter.py:165-177 | selecting the same import twice in one bulk toggle leaves userChrome.css as it was when both toggles found it, for a stylesheet of canonical directives and free text in which no directive can begin (each '@' breaks "@import" within the text, each comment opening is followed by more than spaces, and the text does not start, after spaces, with '*') |
| ManageImports.BulkToggle | src/ui/presenters/manage_imports_presenter.py:141-193 | the count is at most the number of non-empty paths; with count 0 the file is unchanged; the file changes only when something was toggled and the write succeeds, and then it holds the text after the toggle loop |
| ManageImports.ToggleAll | src/ui/presenters/manage_imports_presenter.py:161-179 | the toggle loop over the text read computes `ToggleFold` |
| ManageImports.RemoveFold | src/ui/presenters/manage_imports_presenter.py:119-139 | the removal loop removes a path when the running state holds it: at most one removal per non-empty path, and with none the profile is unchanged |
| ManageImports.NoUserChromeNoRemoval | src/ui/presenters/manage_imports_presenter.py:119-139 | without a non-empty userChrome.css no removal succeeds and nothing changes |
| ManageImports.ManageImportsPresenter.constructor | src/ui/presenters/manage_imports_presenter.py:16-18 | the presenter starts on its import service, without a view |
| ManageImports.ManageImportsPresenter.SetView | src/ui/presenters/manage_imports_presenter.py:20-22 | after `set_view` the presenter has a view |
| ManageImports.ManageImportsPresenter.ToggleImport | src/ui/presenters/manage_imports_presenter.py:44-73 | refused without a view and then nothing changes; otherwise the result and the new state are the service's toggle |
| ManageImports.ManageImportsPresenter.RemoveImport | src/ui/presenters/manage_imports_presenter.py:75-103 | refused without a view and then nothing changes; otherwise the result and the new state are the service's removal |
| ManageImports.ManageImportsPresenter.RemoveOne | src/ui/presenters/manage_imports_presenter.py:128-131 | one call of the bulk loop succeeds exactly when the removal does, and then applies it |
| ManageImports.ManageImportsPresenter.RemoveMultipleImports | src/ui/presenters/manage_imports_presenter.py:105-139 | without a view, a profile or any path the count is 0 and nothing changes; otherwise the new state and the count are those of one removal per non-empty path in order |
| ManageImports.ManageImportsPresenter.ToggleMultipleImports | src/ui/presenters/manage_imports_presenter.py:141-193 | the count and the new userChrome.css are `BulkToggle`'s, and files and records are untouched |
| UserChrome.Normalize | src/core/userchrome.py:151-160 | a normalized path holds no backslash and no surrounding whitespace |
| UserChrome.NormalizeBackslashes | src/core/userchrome.py:153-154 | backslashes and '/' normalize alike |
| UserChrome.NormalizeDotSlash | src/core/userchrome.py:156-158 | one leading "./" is ignored, unless a second one follows it |
| UserChrome.NormalizeClean | src/core/userchrome.py:151-160 | a path already in normal form is its own normalization |
| UserChrome.LineNumber | src/core/userchrome.py:98 | line numbers start at 1 |
| UserChrome.EntryFor | src/core/userchrome.py:94-113 | an entry keeps the matched path and the line of the match, and is enabled exactly when it has the active shape and lies outside every comment block |
| UserChrome.EntriesOf | src/core/userchrome.py:94-129 | one entry per match, in order |
| UserChrome.DedupSound | src/core/userchrome.py:107-129 | every kept entry is a candidate whose normalized path was not seen before |
| UserChrome.DedupDistinct | src/core/userchrome.py:107-129 | the kept entries have distinct normalized paths |
| UserChrome.DedupComplete | src/core/userchrome.py:107-129 | every candidate whose path was not seen before is represented by a kept entry with the same normalized path |
| UserChrome.DedupFirst | src/core/userchrome.py:107-129 | a kept entry is the earliest candidate with its normalized path |
| UserChrome.ImportsUnique | src/core/userchrome.py:88-136 | `get_imports` yields at most one entry per normalized path |
| UserChrome.Imports | src/core/userchrome.py:88-136 | every entry of `get_imports` comes from a directive of either shape, and a text without '@' has none |
| UserChrome.ImportsFirstWins | src/core/userchrome.py:88-136 | the first directive of each normalized path, active shape first, is the one reported |
| UserChrome.ImportsComplete | src/core/userchrome.py:88-136 | every directive of either shape is represented by an entry with its normalized path |
| UserChrome.ImportsEnabledActive | src/core/userchrome.py:116-129 | comment-shape entries are disabled, so every enabled entry comes from the active scan |
| UserChrome.ActiveEntryFields | src/core/userchrome.py:94-113 | an active-shape entry is enabled exactly when outside every comment block, its line is 1 plus the newlines before the match, and its path is the matched group |
| UserChrome.NoAtNoImports | src/core/userchrome.py:13-14 | a text without '@' holds no directive of either shape and no import |
| UserChrome.DedupStep | src/core/userchrome.py:107-114 | a candidate with a seen path is skipped, and any other is kept and its path marked seen |
| UserChrome.InCommentBlock | src/core/userchrome.py:100-105 | the inner loop decides whether the match starts inside a comment block |
| UserChrome.Keys | src/core/userchrome.py:114 | every entry's normalized path is among the seen paths |
| UserChrome.DedupAppend | src/core/userchrome.py:91-129 | the comment-shape loop filters against the paths the active loop has seen |
| UserChrome.KeepNew | src/core/userchrome.py:94-129 | one loop appends exactly the entries whose normalized paths are new and adds all their paths to `seen_paths` |
| UserChrome.MakeEntry | src/core/userchrome.py:95-113 | the entry of one match |
| UserChrome.KeepAdvance | src/core/userchrome.py:107-114 | one turn of the loop keeps the loop's invariant |
| UserChrome.GetImports | src/core/userchrome.py:88-136 | `get_imports` computes `Imports`, whose properties the lemmas above state |
| UserChrome.ImportsSplit | src/core/userchrome.py:91-129 | the entries are the active ones kept, then the commented ones whose paths are new |
| UserChrome.HasImportIff | src/core/userchrome.py:138-149 | `has_import` holds exactly when some directive of either shape has the path's normalized form |
| UserChrome.HasImport | src/core/userchrome.py:138-149 | `has_import` never holds for a text without '@' |
| UserChrome.HasImportSound | src/core/userchrome.py:138-149 | `has_import` holds only when some directive has the normalized path |
| UserChrome.HasImportComplete | src/core/userchrome.py:138-149 | `has_import` holds whenever some directive has the normalized path |
| UserChrome.MaxEndSpec | src/core/userchrome.py:241-248 | the largest end is -1 exactly for no match, bounds every end, and is some match's end |
| UserChrome.AllMatches | src/core/userchrome.py:232-239 | every collected match lies inside the text |
| UserChrome.LastImportPosition | src/core/userchrome.py:230-255 | the insertion point is -1 or a position in the text |
| UserChrome.LastImportPositionSpec | src/core/userchrome.py:230-255 | the insertion point is -1 exactly when there is no match; otherwise it is a newline or the end of the text, at or after every match's end, with no newline between it and the end of some match |
| UserChrome.GetLastImportPosition | src/core/userchrome.py:230-255 | the scans and the sort compute `LastImportPosition` |
| UserChrome.LargestEnd | src/core/userchrome.py:235-248 | one scan moves the running maximum from the largest end seen to that of the extended list |
| UserChrome.AddImportSpec | src/core/userchrome.py:162-177 | `add_import` leaves a text that imports the path unchanged; otherwise it puts the directive and a blank line first when there is no match, and otherwise inserts a newline and the directive at the end of the line of the last-ending match |
| UserChrome.AddImport | src/core/userchrome.py:162-177 | `add_import` changes the text exactly when the path is absent, and then only lengthens it |
| UserChrome.AddImportThenHas | src/core/userchrome.py:162-177 | after `add_import(T, P)` for a plain path P, `has_import` finds P |
| UserChrome.InsertedAt | src/core/userchrome.py:170-177 | the new directive starts the text or a line |
| UserChrome.DirectiveFound | src/core/userchrome.py:138-149 | a directive for a plain path at the start of the text or of a line is seen by `has_import` |
| UserChrome.SingleDirectiveImports | src/core/userchrome.py:88-136 | a stylesheet that is one directive has one enabled entry, on line 1 |
| UserChromeEdit.Canon | src/core/userchrome.py:189-195 | the enabled form of a directive is 16 characters longer than the path, the commented form 22 |
| UserChromeEdit.SubFromSkip | src/core/userchrome.py:197 | the substitution copies a stretch of text where no match begins |
| UserChromeEdit.ToggleImport | src/core/userchrome.py:179-197 | `toggle_import` leaves a text with no match of the normalized path unchanged (with `UserChromeEdit.ToggleRender` and `UserChromeEdit.ToggleTwice` for texts that have matches) |
| UserChromeEdit.ToggleNoAt | src/core/userchrome.py:179-197 | `toggle_import` leaves a text without '@' unchanged |
| UserChromeEdit.Toggled | src/core/userchrome.py:189-197 | toggling keeps the number of pieces of the stylesheet |
| UserChromeEdit.BoundaryUnclosed | src/core/userchrome.py:186 | at a boundary between pieces of a clean stylesheet no optional comment close can be read |
| UserChromeEdit.DirHit | src/core/userchrome.py:185-195 | at the start of a directive for the normalized path, in either form, the pattern matches the whole directive and toggling switches its form |
| UserChromeEdit.DirNoHit | src/core/userchrome.py:185-187 | no match of the path begins inside a directive for another path |
| UserChromeEdit.FreeQuiet | src/core/userchrome.py:185-187 | no match begins inside free text in which each '@' breaks "@import" within the text and each comment opening is followed by more than spaces, when the next piece does not start with '*' |
| UserChromeEdit.KeywordBroken | src/core/userchrome.py:185-187 | at an '@' of such free text the keyword of the pattern does not stand |
| UserChromeEdit.OpenQuiet | src/core/userchrome.py:185-187 | a comment opening in such free text is followed by no directive, so the optional group of the pattern cannot start a match there |
| UserChromeEdit.NoMarkFree | src/core/userchrome.py:185-187 | text without '@' or '*' is such free text |
| UserChromeEdit.ToggleFrom | src/core/userchrome.py:179-197 | on a stylesheet of free text and directives, the substitution switches the form of exactly the directives of the normalized path and copies everything else |
| UserChromeEdit.PieceStep | src/core/userchrome.py:189-197 | the substitution writes each piece's toggled text and goes on after it |
| UserChromeEdit.ToggleRender | src/core/userchrome.py:179-197 | `toggle_import` of a stylesheet of canonical directives and free text in which no directive can begin (each '@' breaks "@import" within the text, each comment opening is followed by more than spaces, and the text does not start, after spaces, with '*') is that stylesheet with the path's directives switched between enabled and commented |
| UserChromeEdit.ToggledTwice | src/core/userchrome.py:189-195 | switching the same directives twice gives the pieces back, and toggled pieces stay clean |
| UserChromeEdit.ToggleTwice | src/core/userchrome.py:179-197 | toggling the same path twice gives back a stylesheet of canonical directives and free text in which no directive can begin (each '@' breaks "@import" within the text, each comment opening is followed by more than spaces, and the text does not start, after spaces, with '*') |
| UserChromeEdit.HeaderClean | src/core/userchrome.py:185-187 | a namespace rule followed by a comment is free text in which no directive can begin |
| UserChromeEdit.ToggleTwiceUnderHeader | src/core/userchrome.py:179-197 | below a namespace rule and a comment, two toggles of an enabled directive on its own line give the file back |
| UserChromeEdit.LineSpan | src/core/userchrome.py:220-223 | the span to cut lies within the current text and does not run backwards |
| UserChromeEdit.CutLine | src/core/userchrome.py:226 | one cut never lengthens the text |
| UserChromeEdit.RemoveImport | src/core/userchrome.py:199-228 | `remove_import` as written computes `RemoveImportOf` |
| UserChromeEdit.RemoveImportOf | src/core/userchrome.py:199-228 | `remove_import` changes the text exactly when the exact-path pattern matches somewhere, and then the text gets strictly shorter; it never grows |
| UserChromeEdit.CutLines | src/core/userchrome.py:214-226 | the reverse loop cuts each match's line, the last match first |
| UserChromeEdit.CutBackLast | src/core/userchrome.py:216 | the reverse loop cuts the last of the matches first |
| UserChromeEdit.ExactScanQuiet | src/core/userchrome.py:210 | `finditer` yields nothing where no match begins |
| UserChromeEdit.RemoveNoAt | src/core/userchrome.py:199-212 | `remove_import` leaves a text without '@' unchanged |
| UserChromeEdit.RemoveOwnLine | src/core/userchrome.py:199-228 | in a clean stylesheet whose only directive of the path stands alone on its line, that directive goes with nothing else and a second removal changes nothing; when the rest holds no '@' and no '*', `has_import` no longer finds the path |
| UserChromeEdit.CutOwnLine | src/core/userchrome.py:218-226 | cutting the line of a directive alone on its line leaves the text around it |
| UserChromeEdit.OwnLineScan | src/core/userchrome.py:205-210 | in a clean stylesheet holding one directive of the path, that directive is the only match of the exact-path pattern |
| UserChromeEdit.ScanFrom | src/core/userchrome.py:205-210 | on a clean stylesheet the exact-path scan from a piece boundary finds exactly the directives of the path, in order, with their spans and their enabled state |
| UserChromeEdit.ScanAll | src/core/userchrome.py:205-210 | the same for the whole text |
| UserChromeEdit.RestQuiet | src/core/userchrome.py:205-210 | a clean stylesheet with no directive of the path has no match of the exact-path pattern |
| UserChromeEdit.OwnLineSpan | src/core/userchrome.py:219-223 | the line of a directive between line ends is the directive itself |
| UserChromeEdit.RemoveSameLineAsWritten | src/core/userchrome.py:214-226 | as written, removing "a" from two directives for "a" on one line followed by "\nb" gives the empty text: the line "b" is lost |
| UserChromeEdit.TwoOnOneLine | src/core/userchrome.py:205-210 | two adjacent directives for "a" give two matches, one after the other |
| UserChromeEdit.OriginalSpans | src/core/userchrome.py:219-223 | the corrected removal takes every match's line span in the original text |
| UserChromeEdit.RemoveMatchLines | src/core/userchrome.py:199-228 | the corrected loop computes `RemoveMatchLinesOf`: every line holding a match is dropped once and every other character is kept in order |
| UserChromeEdit.CutSpans | src/core/userchrome.py:214-226 | cutting ascending spans from the last, each clamped at the previous cut, keeps exactly the characters on no span |
| UserChromeEdit.CutStep | src/core/userchrome.py:216-226 | one clamped cut removes its span and keeps what lies up to the previous cut |
| UserChromeEdit.KeepCovered | src/core/userchrome.py:219-226 | nothing on a removed line is kept |
| UserChromeEdit.KeepUncovered | src/core/userchrome.py:219-226 | every character on no removed line is kept |
| UserChromeEdit.LineSpanMono | src/core/userchrome.py:220-223 | the line spans move forward with the matches |
| UserChromeEdit.ScanAscending | src/core/userchrome.py:210 | `finditer` yields matches with increasing starts and ends |
| UserChromeEdit.SpansAscending | src/core/userchrome.py:210-223 | the line spans of the matches ascend and lie within the text |
| UserChromeEdit.RemoveSameLineCorrected | src/core/userchrome.py:199-228 | corrected, the same removal keeps the line end and "b" |
| UserChromeEdit.SameLineKept | src/core/userchrome.py:219-226 | both matches lie on the first line, so only its line end and "b" stay |
| UserChromeEdit.SharedLine | src/core/userchrome.py:220-223 | both directives on the first line have that whole line as span |
| UserChromeEdit.KeepOne | src/core/userchrome.py:226 | keeping what lies outside one span is cutting that span |
| UserChromeEdit.RemoveSingleAgrees | src/core/userchrome.py:199-228 | with a single match the corrected removal and `remove_import` as written agree |
| UserChromeEdit.RemoveMatchLinesOf | src/core/userchrome.py:199-228 | the corrected removal keeps only characters of the text, so it never grows either |
| UserChromeEdit.RemoveMatchLinesOwnLine | src/core/userchrome.py:199-228 | in a clean stylesheet, the corrected removal takes a directive alone on its line out and keeps the rest |
| UserChromeEdit.LineSpanSpec | src/core/userchrome.py:219-223 | the span cut for a match is its own line or lines: it starts at the text start or after a '\n', ends at a '\n' or the text end, holds the match and no other '\n' |
| ImportSyntax.CloseAfter | src/core/userchrome.py:14 | the comment close `\s*\*/` ends at least two characters on, inside the text |
| ImportSyntax.TailAt | src/core/userchrome.py:13-14 | the tail after the path group is at least `);` and ends inside the text |
| ImportSyntax.LazyFrom | src/core/userchrome.py:13-14 | the lazy group `(.+?)` ends at the first place where the tail matches, and the tail does match there |
| ImportSyntax.PathAfterParen | src/core/userchrome.py:13-14 | the path group is non-empty, starts at or after `url(` and is followed by a matching tail |
| ImportSyntax.UrlAt | src/core/userchrome.py:13-14 | a keyword match is `@import`, at least one space, then `url(` |
| ImportSyntax.MatchAt | src/core/userchrome.py:13-14 | a directive match found at a position starts there and lies inside the text |
| ImportSyntax.Scan | src/core/userchrome.py:94 | `finditer` yields matches inside the text from the starting point on |
| ImportSyntax.MatchParts | src/core/userchrome.py:13-14 | a match consists of `@import`, spaces, `url(`, the path group and the tail, and an active match begins with its keyword |
| ImportSyntax.ScanSound | src/core/userchrome.py:94 | every match `finditer` yields is the match at its start, and matches do not overlap |
| ImportSyntax.CloseFrom | src/core/userchrome.py:102 | a comment close found is a `*/` at or after the search point |
| ImportSyntax.LazyFromStops | src/core/userchrome.py:13-14 | the lazy group stops at the first end where the tail matches when no newline comes first |
| ImportSyntax.LazyFromOneLine | src/core/userchrome.py:13-14 | the lazy group never holds a newline |
| ImportSyntax.PartsOneLine | src/core/userchrome.py:13 | an active directive match from `url(` on holds no newline |
| ImportSyntax.ScanReaches | src/core/userchrome.py:94 | `finditer` reports a match at a position that no earlier match overlaps |
| ImportSyntax.Directive | src/core/userchrome.py:173-177 | the written directive is 16 characters longer than its path |
| ImportSyntax.DirectiveMatch | src/core/userchrome.py:13 | a written directive for a plain path is matched whole, with the path as its group |
| ImportSyntax.QuotedGroup | src/core/userchrome.py:13-14 | after an opening quote, a lazy group that finds its tail is the path group |
| ImportSyntax.NoActiveAcross | src/core/userchrome.py:13 | no active match begun before a line starting with '@' runs into that line |
| ImportSyntax.ExactRest | src/core/userchrome.py:186 | the exact-path pattern after group 1 covers at least the directive for the path |
| ImportSyntax.ExactAt | src/core/userchrome.py:185-187 | an exact-path match found at a position starts there and ends inside the text |
| ImportSyntax.HitsOf | src/core/userchrome.py:185-187 | the exact-path pattern is a finder of matches for that path |
| ImportSyntax.ExactScan | src/core/userchrome.py:197 | `finditer` with the exact-path pattern yields non-overlapping matches inside the text, from the starting point on |
| ImportSyntax.ExactAtNeedsStart | src/core/userchrome.py:185-187 | no exact-path match begins where there is neither '@' nor a comment opening |
| CircularImports.Read | src/core/userchrome.py:274-284 | a target is read exactly when `os.path.isfile` holds for the joined path and the file opens as text |
| CircularImports.Reader | src/core/userchrome.py:274-284 | the walk reads every key as `Read` does |
| CircularImports.CheckCircularImports | src/core/userchrome.py:257-304 | `check_circular_imports` computes `Check` on the profile's chrome folder |
| CircularImports.Walk | src/core/userchrome.py:265-304 | the body of the walk computes `Check` |
| CircularImports.WalkImports | src/core/userchrome.py:289-300 | the directive loop computes `CheckEach`, sharing the processed set with its callees |
| CircularImports.CheckEachSeen | src/core/userchrome.py:292-294 | a directive whose normalized path was processed before reports a cycle |
| CircularImports.CheckEachDepth | src/core/userchrome.py:296-304 | where the interpreter allows no further call, the loop ends without a cycle (`RecursionError` caught) |
| CircularImports.CheckEachEnd | src/core/userchrome.py:300 | past the last directive the loop ends without a cycle |
| CircularImports.CheckEachStops | src/core/userchrome.py:289-304 | the loop stops at the end, at a processed path, or at the depth limit, with those outcomes |
| CircularImports.CheckEachAfter | src/core/userchrome.py:296-298 | after the walk below a directive the loop stops on a cycle and goes on otherwise, with the grown processed set |
| CircularImports.CheckEachStep | src/core/userchrome.py:289-298 | one iteration descends into the directive and stops on a cycle, or goes on with the grown processed set |
| CircularImports.CheckGrows | src/core/userchrome.py:271-272 | each call adds its normalized path to the processed set and nothing is ever removed |
| CircularImports.CheckEachGrows | src/core/userchrome.py:289-298 | the loop never removes a processed path |
| CircularImports.CheckMissing | src/core/userchrome.py:277-279 | a missing or unreadable target reports no cycle and only records its path |
| CircularImports.CheckOpens | src/core/userchrome.py:281-289 | a readable target's walk is the loop over its directives |
| CircularImports.CheckFirstSeen | src/core/userchrome.py:289-294 | a file whose first directive names a processed path, or itself, closes a cycle |
| CircularImports.Visit | src/core/userchrome.py:257-304 | the corrected walk ends without a depth limit and never drops a processed path |
| CircularImports.VisitEach | src/core/userchrome.py:289-300 | the corrected loop never drops a processed path |
| CircularImports.DetectCycle | src/core/userchrome.py:257-304 | the corrected `check_circular_imports` records the normalized new path and keeps every processed path |
| CircularImports.VisitEachFindsSeen | src/core/userchrome.py:289-294 | in the corrected loop, once a directive names a processed path, a cycle is reported |
| CircularImports.VisitFindsSeen | src/core/userchrome.py:289-294 | in the corrected walk, a file with any directive naming a processed path or itself closes a cycle |
| CircularImports.VisitMissing | src/core/userchrome.py:277-279 | in the corrected walk, a missing or unreadable target reports no cycle |
| CircularImports.KeyOfDotDotName | src/core/userchrome.py:151-160 | normalization strips only one leading "./", so "././a.css" becomes "./a.css" |
| CircularImports.RespelledLoop | src/core/userchrome.py:269-298 | a file whose one directive normalizes to another spelling that normalizes back reopens itself under the same two keys until the depth runs out, reporting nothing |
| CircularImports.RespelledMissed | src/core/userchrome.py:257-304 | as written, such a self-import is not reported from its own file at any depth |
| CircularImports.SelfImportFound | src/core/userchrome.py:257-304 | the corrected walk reports any file whose directive resolves back to the file itself |
| CircularImports.SelfImportFacts | src/core/userchrome.py:151-160 | `c/a.css` holding the directive for "././a.css" has one entry, and that spelling normalizes to "./a.css" and then to "a.css" |
| CircularImports.SelfImportMissed | src/core/userchrome.py:257-304 | as written, `a.css` importing itself as "././a.css" is never reported |
| CircularImports.SelfImportDetected | src/core/userchrome.py:257-304 | corrected, the same self-import is reported |
| Archive.FirstMatch | src/core/archive.py:71-78 | the dispatch picks the first table entry whose extension the name ends with: no earlier entry matches and the chosen one does |
| Archive.FirstMatchPrefix | src/core/archive.py:23-39 | entries appended to the table do not change which earlier entry a name matches |
| Archive.FirstUnsafe | src/core/archive.py:108-113 | the check loop stops at the first entry whose name starts with '/' or contains ".."; all entries before it are safe |
| Archive.Existing | src/core/archive.py:115-120 | what a directory holds is known exactly when it exists |
| Archive.Written | src/core/archive.py:115-118 | an extractor that made the directory appends what it left there and changes no other directory; one that did not touch it changes nothing |
| Archive.Left | src/core/archive.py:174-196 | a streamed file entry is written; a directory entry only creates the parent directory of its joined path, which is nothing new when that is the extraction directory itself |
| Archive.CreatedFiles | src/core/archive.py:174-196 | a streamed archive of files alone leaves exactly its entries |
| Archive.CreatedKeepsFiles | src/core/archive.py:174-196 | every streamed file entry ends up in the extraction directory |
| Archive.CreatedNothing | src/core/archive.py:174-199 | streamed entries leave nothing exactly when each is a directory entry directly inside the extraction directory |
| Archive.CreatedEmpty | src/core/archive.py:174-199 | streamed entries leave nothing exactly when no single entry leaves anything |
| Archive.Failure | src/core/archive.py:105-126 | an `ArchiveError` raised inside an extractor's `try` leaves it as an `ArchiveError` |
| Archive.CheckedExtraction | src/core/archive.py:105-155 | ZIP and TAR extraction write the whole archive, directories included, or nothing, and touch the directory exactly when they write; they succeed exactly when the archive is readable, every name is safe and the directory ends up non-empty, and then return the directory |
| Archive.StreamedExtraction | src/core/archive.py:168-203 | libarchive extraction creates the directory once a safe entry is reached and leaves what the entries before the first unsafe one leave; it succeeds exactly when the archive is readable, every name is safe and the directory holds something afterwards, directory entries directly inside it counting for nothing, and then returns the directory |
| Archive.CheckedAgainstStreamed | src/core/archive.py:105-203 | an archive libarchive accepts is accepted by ZIP and TAR too, leaving the same directory up to directory entries; an archive ZIP and TAR accept is accepted by libarchive exactly when something other than top-level directories is left or the directory was non-empty; when a safe entry precedes an unsafe one only libarchive has touched the directory |
| Archive.FilesOnlyAgree | src/core/archive.py:105-203 | on an archive without directory entries both policies accept the same archives with the same outcome |
| Archive.LoneDirectoryEntry | src/core/archive.py:115-199 | an archive holding only the top-level directory `sub`, extracted into an empty directory, is accepted by ZIP but refused by libarchive with "produced no files" |
| Archive.CssIn | src/core/archive.py:160-165 | one directory contributes no more CSS files than it has files |
| Archive.CssInSound | src/core/archive.py:160-165 | every path reported for a directory is a file of it ending in ".css" in any case, joined to the directory |
| Archive.CssInComplete | src/core/archive.py:160-165 | every CSS file of a directory is reported |
| Archive.CssFilesSound | src/core/archive.py:157-166 | every path `find_css_files` reports is a CSS file of some walked directory, joined to it |
| Archive.CssFilesComplete | src/core/archive.py:157-166 | `find_css_files` reports every CSS file of every walked directory |
| Archive.FindCssFiles | src/core/archive.py:157-166 | the nested loop computes `CssFiles` |
| Archive.ValidateExtractedContent | src/core/archive.py:205-223 | the content is valid exactly when the path is a directory holding some CSS file, and then the CSS files are returned, else none |
| Archive.ArchiveProcessor.constructor | src/core/archive.py:23-39 | the supported extensions are the base table, extended by the libarchive formats exactly when libarchive is available |
| Archive.ArchiveProcessor.IsArchive | src/core/archive.py:41-52 | a path is an archive exactly when it is a file whose lower-cased path ends with a supported extension |
| Archive.ArchiveProcessor.Chosen | src/core/archive.py:71-78 | the dispatch position lies within the table, or past it for no match |
| Archive.ArchiveProcessor.ExtractAll | src/core/archive.py:105-155 | ZIP or TAR extraction returns `CheckedExtraction`'s result and writes what it writes |
| Archive.ArchiveProcessor.ExtractLibarchive | src/core/archive.py:168-203 | without libarchive the call fails and writes nothing; otherwise it returns `StreamedExtraction`'s result and writes what it writes |
| Archive.ArchiveProcessor.RunExtractor | src/core/archive.py:71-78 | the extractor at the chosen position runs with its own result and writes |
| Archive.ArchiveProcessor.ExtractArchive | src/core/archive.py:54-103 | a non-archive is refused with "Unsupported archive format" and nothing written; otherwise the extractor of the first matching extension runs into the given directory or a new temporary one, and on failure the recovery runs |
| Archive.ArchiveProcessor.Recover | src/core/archive.py:80-100 | the clean-up and fallback after a failed extractor compute `Recovery` |
| Archive.Recovery | src/core/archive.py:80-100 | after a failure the directory is removed; for any extension but ".zip" the ZIP extractor is tried into a fresh directory and its success is returned; otherwise the first error is reported as "Failed to extract archive" |
| Archive.RecoveryForgetsPartialWrites | src/core/archive.py:80-100 | whatever the failed extractor wrote into the directory is gone after the clean-up |
| Archive.WrittenStep | src/core/archive.py:174-196 | streaming one more safe entry makes the directory and extends it by what that entry leaves |
| Archive.LibarchiveKeepsDispatch | src/core/archive.py:23-39 | with libarchive present, every name the base table accepts dispatches to the same extractor as before |
| Download.ValidateUrl | src/core/download.py:36-42 | a valid URL parses with a non-empty network location (and so holds a ':'), and a parse error makes it invalid |
| Download.ValidComposed | src/core/download.py:36-42 | every `http` or `https` URL with a plain host and path is valid |
| Download.ValidateUrlIff | src/core/download.py:36-42 | valid exactly when the parse succeeds with scheme `http` or `https` and a non-empty network location |
| Download.LeadingBlankValid | src/core/download.py:36-42 | a control character or space in front of a URL does not change whether it is valid |
| Download.SpacedGithubValid | src/core/download.py:36-42 | `" https://github.com"` followed by a path is valid |
| Download.UnbalancedInvalid | src/core/download.py:38-42 | a URL whose parse raises is rejected rather than raising |
| Download.ValidOnHost | src/core/download.py:36-42 | an https URL on a plain host is valid whatever path follows |
| Download.GithubHostsPlain | src/core/download.py:205-216 | the GitHub hosts the program builds URLs on are plain hosts |
| Download.RawFileRecord | src/core/download.py:179-198 | a raw-file record is named after the last '/' part of its URL, lists that one file, keeps the URL and has no version or metadata |
| Download.FileRecordName | src/core/download.py:205-210 | a file reached through a blob URL is named after the last '/' part of its repository path |
| Download.ZipUrlValid | src/core/download.py:212-215 | the branch archive URL always passes `validate_url` |
| Download.FileRawUrlValid | src/core/download.py:205-210 | the raw-file URL always passes `validate_url` |
| Download.RepoRecord | src/core/download.py:212-246 | a repository record is named after the repository, versioned by the branch (no version for a JSON null branch), lists no files, keeps the repository URL and stores the GitHub metadata with the branch value as the API gave it |
| Download.GithubParts | src/core/download.py:116-130 | the parts after "github.com/" are at least one, and they are missing exactly when "github.com/" does not occur |
| Download.GithubRoute | src/core/download.py:116-156 | a URL without "github.com" is "Not a GitHub URL", one with fewer than two parts is "Invalid GitHub URL format"; a repository route takes owner and repository from the first two parts, a file route needs more than four parts with "blob" third and takes the branch and path from the rest |
| Download.GithubPartsOf | src/core/download.py:126 | the parts after `https://github.com/` are the '/'-separated pieces of the rest |
| Download.BlobRoute | src/core/download.py:139-143 | a blob URL routes to the file it names: owner, repository, branch and path |
| Download.RepoRouteOf | src/core/download.py:145-150 | an `owner/repo` URL routes to the repository |
| Download.DefaultBranch | src/core/download.py:150 | the branch is the repository's `default_branch`, whatever its JSON type, and "main" when there is none |
| Download.NullBranch | src/core/download.py:150-151 | a `default_branch` of JSON null downloads `…/archive/refs/heads/None.zip`, and the record has no version and keeps the null as its branch |
| Download.MissingBranch | src/core/download.py:150-151 | without a `default_branch` the archive of "main" is downloaded and the record is versioned "main" |
| Download.DownloadManager.constructor | src/core/download.py:12-14 | the manager starts on the given files |
| Download.DownloadManager.DownloadFile | src/core/download.py:44-81 | an invalid URL is refused and nothing is written; a delivered transfer writes the destination; any other failure removes the destination and reports "Download failed" |
| Download.DownloadManager.HandleGithubRawFile | src/core/download.py:179-203 | succeeds exactly when the URL is valid and the transfer delivered, returning the temporary file and the raw-file record; otherwise the temporary file is removed and a "Failed to download GitHub file" error is raised |
| Download.DownloadManager.HandleGithubRepo | src/core/download.py:212-251 | downloads the archive of the branch's text (`BranchText`, Python's `str()`) and succeeds exactly when the archive is delivered, returning the temporary file and the repository record; otherwise the temporary file is removed and a "Failed to download GitHub repository" error is raised |
| Download.DownloadManager.HandleGithubUrl | src/core/download.py:116-156 | routing errors pass through and write nothing; a raw URL, a blob URL and a repository URL each succeed exactly when their download is delivered, with their record; a failed API answer writes nothing and is reported as "Failed to process GitHub URL: " with its message; an answer that is not a JSON object writes nothing and reports "'<type>' object has no attribute 'get'" with its Python type name; every other failure is a `DownloadError` |
| Download.BreakAt | src/core/download.py:286 | the first line break at or after a position, with none before it |
| Download.SplitLines | src/core/download.py:286 | `splitlines` gives lines holding no break, and no lines exactly for the empty text |
| Download.HeaderLine | src/core/download.py:287-290 | a header line contributes a name without ':' |
| Download.Parsed | src/core/download.py:286-290 | each line contributes its own header, in order |
| Download.LastNamed | src/core/download.py:286-290 | the last line naming a header is found, with no later line naming it |
| Download.HeadersLastWins | src/core/download.py:283-292 | a header is in the dictionary exactly when some line names it, and its value is the one on the last such line |
| Download.HeadersStep | src/core/download.py:286-290 | one more line overwrites the dictionary with its header, if it has one |
| Download.GetUrlHeaders | src/core/download.py:253-299 | an invalid URL is refused; a failed request or a status of 400 or more is "Failed to get headers"; otherwise the headers parsed from the response lines are returned |
| Download.CheckGithubUpdates | src/core/download.py:301-334 | an update is reported only for complete GitHub metadata and a non-empty commit list, with the first commit's SHA, which differs from the stored `latest_commit` |
| Download.CommitNotObject | src/core/download.py:318-334 | when the first commit of the API's answer is not a JSON object, the check reports "Update check failed: '<type>' object has no attribute 'get'" with its Python type name |
| Download.FreshRepoHasUpdate | src/core/download.py:212-246 | a freshly installed repository sees the branch's latest commit as an update |
| Download.StoredShaUpToDate | src/core/download.py:323-326 | once the latest SHA is stored as `latest_commit`, the same answer reports no update |

## Left out

- **Network.** Every curl, GitHub API and GitLab API request is an input value: an HTTP status, the
  downloaded bytes being present, a JSON answer, response headers. The transfer code and `fetch_api`
  and its friends are not modelled.
- **File contents and directory listings** are inputs:
  - a map from path to text, or to "unreadable";
  - the order of `os.walk` and `listdir`.

  Encoding errors are folded into "unreadable".
- FileManager.FileManager.CreateDirectory gives the `OSError` texts of a consistent tree on Linux,
  with the path quoted as '…' without Python's escaping of quotes and backslashes in `repr`. A path
  with a trailing slash, permission errors and the two post-checks at
  src/infrastructure/file_manager.py:16-20 (which cannot fail after a successful `makedirs` in this
  tree) are not modelled.
- FileManager.FileManager.CopyFile does not model `shutil.copy2` into an existing destination
  directory (with `overwrite` on), which puts the file inside that directory; the model puts the
  copied file in the directory's place instead.
- Download.DefaultBranch keeps the branch's JSON value, but `BranchText` spells out `str()` only for
  a string, null, a boolean and an integer; a list or an object branch gives an empty text, where
  Python writes its `repr`. The record's version for a boolean or integer branch holds its text,
  where the program stores the value itself.
- **Writes that fail.** A write of userChrome.css or of a JSON file either succeeds or leaves the old
  state; the `OSError` text is not modelled.
- ImportService.UninstallAsWritten models the deletion of `os.path.join(chrome_dir, folder)`
  (src/application/import_service.py:666-699) by its effect on the chrome folder only. For a
  first segment "..", `shutil.rmtree` also empties the rest of the profile folder, which is outside
  the model. The Windows `rd /s /q` branch and a failing shell-out are not modelled, and
  userChrome.css is taken to be deleted only under its exact name (a case-sensitive file system).
- **Reference collection after copying.** The loop at src/application/import_service.py:392-422 only
  appends to a list that is never read again, so it is not modelled.
- **Copying.** The reading of the copied files for `_find_main_css_files` is an input (`RefsOf` of
  the file contents). `shutil.copy2` itself is the `CopyBundle` step, which is given the destination
  paths.
- **`os.path.relpath`** is modelled only for a file found below the extraction directory: what
  follows the directory and its separator. Paths that leave the directory are not modelled.
- **Clock.** `datetime.now()` is a parameter.
- IsoDate.FromIsoFormat parses only the three shapes `isoformat` writes: `YYYY-MM-DD`,
  `YYYY-MM-DDTHH:MM:SS` and the same with six fraction digits. The other shapes `fromisoformat` takes
  (minutes without seconds, three-digit fractions, UTC offsets, a space for the `T`) are `None`, so
  `ModRegistry.LoadOne` replaces such a date with the current time where the program would keep it.
- Url.UrlParse does not model the checks `urlsplit` makes on a bracketed host (that the text
  between the brackets is an IPv6 or IPvFuture address) or on a non-ASCII network location (NFKC
  normalization). A network location with one bracket of each kind is accepted whatever lies between
  them. The clean-up before splitting (`Url.Stripped`) follows the Python releases that strip
  leading control characters and spaces.
- ConfigStore.ConfigStore.constructor models only the load of the configuration. The creation of
  the configuration's directory with `os.makedirs` is a file-system effect and is not modelled.
- ImportService.ImportService.ImportSingleFile models the failure of `copy_file` only. The same
  `except` also catches a failing `ensure_chrome_dir`, a failing `os.remove` of the temporary file and
  a `save_mod_info` that raises because the mods file path was never set (`ModRegistry.NotSet`); the
  model's registry is always set, so after a good copy it always succeeds.
- **`Profile.has_chrome_dir` and `has_userchrome`** query the file system and are not modelled. The
  path properties are.
- **Copying updates.** The `_apply_github_update`, `_apply_gitlab_update` and `_apply_direct_update`
  steps (src/application/update_service.py:557-822) download and copy files. Only the guards of
  `apply_update` that run before them are modelled (`UpdateService.ApplyGuard`).
- **GitLab API helpers.** `get_project_info`, `get_latest_commit`, `get_file_content`,
  `get_repository_tree` and `compare_commits` of src/infrastructure/gitlab_api.py are HTTP requests.
  Their answers are parameters of the update rules.
- **Other file helpers.** `copy_directory`, `create_temp_file`,
  `create_temp_directory` and `check_file_permissions` of src/infrastructure/file_manager.py are not
  modelled.
- **Presenter view.** The view of the manage-imports presenter is a sink. The messages it shows and
  the `load_imports` refresh are dropped; only whether a view is attached is kept.
- **Diagnostic output.** The debug output of `get_imports` and the program's logging have no effect
  on results.
- **Lower-casing** is ASCII-only (`Strings.Lower`). Python's `str.lower` also folds non-ASCII
  letters.
- **Streaming extractor.** The directory an entry's `os.makedirs` creates is recorded only for
  directory entries (`Archive.Left`). The parent directories of a file entry are implied by the
  file and are not listed separately.
- **Unexpected exceptions.** Exceptions the program catches with a bare `except Exception` are
  modelled only where the model can name their cause: unreadable files, JSON that does not load,
  unsafe entries, failed transfers. Interpreter errors such as `MemoryError` are not.
- **Cycle-check recursion limit.** `CircularImports.Check` models the `RecursionError` that ends the
  unbounded recursion of `check_circular_imports` through an explicit `depth` budget. The budget
  stands for the interpreter's recursion limit, whose value is not modelled.

## Findings

| source | as written | input that shows it | evidently intended | confidence | as-written member | corrected member |
|---|---|---|---|---|---|---|
| src/core/userchrome.py:214-226 | `remove_import` takes each match's offsets from the original text but applies them to the already shortened result, working from the last match back | `@import url("a");@import url("a");` followed by `\nb`, removing `a`: the first cut removes the line, the second reads its stale offsets past the `\n` and removes `\nb` too, giving the empty text | remove the line holding the directives and keep the rest, giving `\nb` | high (not executed) | UserChromeEdit.RemoveSameLineAsWritten | UserChromeEdit.RemoveSameLineCorrected |
| src/core/userchrome.py:269-298 | `check_circular_imports` normalizes a path in the caller and again in the callee, and normalization strips only one leading `./`, so the processed set holds a different spelling from the one compared | `c/a.css` containing `@import url("././a.css");`: the path seen is `./a.css` but the set holds `a.css`. The recursion never closes and ends in a `RecursionError`, which the handler turns into "no cycle" | a file that imports itself, however spelled, is reported as circular | high (not executed) | CircularImports.SelfImportMissed | CircularImports.SelfImportDetected |
| src/application/import_service.py:701-706 | when the last import of a bundle is removed, the registry record is deleted by the import path's first segment. That segment is the sanitized folder name, not the mod's name | the mod `a:b` installed into the folder `a_b`, with its only import `a_b/x.css` removed: the folder goes, but `remove_mod("a_b")` matches no record and `a:b` stays in the registry | drop the record of the mod whose folder was deleted | medium (not executed) | ImportService.RegistryRecordOrphaned | ImportService.RegistryRecordDropped |
| src/application/import_service.py:666-699 | the folder deleted is the join of the chrome folder and the sanitized first segment of the path, whatever that segment is | removing `./x.css` from a userChrome.css that holds only its directive: the segment is ".", `rm -rf` refuses `chrome/.`, and `shutil.rmtree` then empties the chrome folder, so userChrome.css and every mod's files are deleted while success is reported | delete only a bundle folder inside the chrome folder, and nothing for a segment "", "." or ".." | high (not executed) | ImportService.DotSegmentWipesChrome | ImportService.DotSegmentKeepsFiles |

The service and the presenter model `remove_import` as the program runs it
(`ImportService.UninstallAsWritten`, with the text removal `UserChromeEdit.RemoveImportOf`). The
corrected definitions stand beside them, with lemmas saying where the two agree:
- the corrected text removal is `UserChromeEdit.RemoveMatchLinesOf`, equal to the program's when
  the path is matched once (`UserChromeEdit.RemoveSingleAgrees`);
- the corrected uninstall rule is `ImportService.Uninstall`, equal to the program's under the
  conditions of `ImportService.UninstallAgrees`; its folder deletion (`ImportService.FilesAfterPurge`)
  deletes nothing for a first segment that names no folder inside the chrome folder
  (`ImportService.UninstallKeepsChrome`);
- the corrected cycle check is `CircularImports.DetectCycle`; the one as written is
  `CircularImports.Check`.
