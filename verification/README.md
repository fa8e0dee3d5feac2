# getpack: the local resource cache, in Dafny

getpack declares external resources (Python packages from PyPI, zipped
tools from the web) and deploys them on first use into a per-user cache
directory `local_base/local_prefix/name/version`. This project models the
core of that lifecycle as pure functions over an abstract directory tree,
and proves what each step promises:

- which versions are present (`get_available_versions`, with `.temp`
  staging directories hidden);
- the `provide` state machine over the per-object `_available` flag;
- the staged `deploy`: `cleanup`, up to 100 random `<20 hex digits>.temp`
  siblings tried, extraction into the one created, rename onto the version
  directory, and removal of the staging directory on failure;
- archive extraction: extractor choice by file-name pattern, the zip and
  tar "files only" listings, and the ordered prefix-rewriting extraction
  map;
- PyPI release selection and the cached `release_info` / `archive_url` /
  `archive_name` properties;
- `PythonPackage.provide` / `activate` over a tree of requirements, the
  per-object flags and `sys.path`.

The two earlier generations that are still shipped are modelled beside
the current one:

- the package's first module, `src/getpack/__init__.py`: module `Legacy`,
  plus the `Initial` variant of the extraction loop and the `Old*`
  functions of `PyPi`;
- the `redeploy` prototype: module `Redeployment`, plus the `Redeploy`
  variant.

Lemmas relate the generations wherever their behaviour differs.

Modules, in dependency order:

| module | file | what it holds |
|---|---|---|
| `Common` | common.dfy | bytes, paths, the exceptions, `Result`/`Outcome`/`Option` |
| `Strings` | strings.dfy | `startswith`, `endswith`, `in`, the `\Wany\W` search, `rsplit('/', 1)[1]` |
| `FileSystem` | filesystem.dfy | the directory tree `Fs(dirs, files)` and the `pathlib`/`shutil` calls the code makes |
| `TempNames` | tempnames.dfy | staging-directory names and their hexadecimal round trip |
| `Extraction` | extraction.dfy | the zip and tar member listings, the tar loop verified against a reference definition |
| `Archives` | archives.dfy | extractor choice, the extraction map, `_deploy_to`, `make_available` |
| `Resources` | resource.dfy | path, version listing, `cleanup`, `deploy`, `provide` |
| `Packages` | packages.dfy | `PythonPackage.provide` / `activate` over requirement trees |
| `Legacy` | legacy.dfy | `_ensure_available`, the `mkdtemp` deploy, `PythonPackage.__call__` |
| `PyPi` | pypi.dfy | release selection, `release_info`, `archive_url`, `archive_name` |
| `Redeployment` | redeploy.dfy | the redeploy prototype |

Conventions:

- **The directory tree.** A path is its sequence of components, and `[]` is
  the root. An exception is a `Fail(error)` / `Failure(error)` value. A step
  that can raise part-way returns a `Run(outcome, fs)`, so the tree it
  leaves behind is part of the result.
- **The environment is a parameter.** It supplies the hundred
  `random.randrange(16**20)` draws of a deploy, the `mkdtemp` result, the
  downloaded archive, the PyPI index and the importable module names.
  In the package model the draws are a function of the version path, so a
  second `provide` of the same path after a failure sees the same hundred
  draws, where Python draws new ones.
- **Object state.** Per-object state (`_available`, `_activated`,
  `initialized`, the cached `_path`) is a record that is threaded through.
  Object identity is an `id` field.
- **Shipped and corrected forms.** Where the code has a defect (see
  Findings), both forms are modelled. The deploy's `except` clause is a
  `Rollback` value, `AsWritten` or `OwnOnly`, that the environment of
  `Packages` also carries. The extraction loop has a `Guarded` variant
  beside the shipped `Current` one.
- **Rename.** `rename` follows the Windows rule that the code targets: an
  existing destination is an error.
- **Where the documentation and the code disagree, the model follows the
  code:**
  - `cleanup` does not reset `_available`. See `Resources.CleanupKeepsAvailable`.
  - There is no lock around `provide`, `deploy` or `cleanup`.
  - A staging name is retried only when it is already a *directory*. If a
    file has that name, `mkdir` raises.
  - Map keys are matched with `startswith`, so `{"bin/": ...}` does not
    select `pkg/bin/tool.exe`. See `Archives.PrefixOnlyExample`.

Every lemma is declared `{:induction false}`, so each inductive argument is
the one written in its body.

## Model

| member | source | states |
|---|---|---|
| `Extraction.ZipFileList` | src/getpack/extraction.py:36-42 | The zip listing succeeds exactly when no member name is empty (`filename[-1]` raises IndexError otherwise). It keeps the members in archive order, as a subsequence. A name is listed iff it is a member whose last character is not `/`. Listed names plus folder entries account for every member. The same code is at src/getpack/resource.py:163-169. |
| `Extraction.FindBelow` | src/getpack/extraction.py:59-61 | The inner `for ii in files[i:]` search stops at a member starting with `files[i] + '/'`. It finds one exactly when one exists from position `i` on. |
| `Extraction.TarStep` | src/getpack/extraction.py:58-64 | One iteration of the reverse loop, deleting or keeping `files[i]`, preserves the invariant "prefix as given, suffix already pruned". |
| `Extraction.TarFileList` | src/getpack/extraction.py:56-65 | The in-place reverse deletion loop returns exactly `Pruned(names)`. That reference drops a member iff some member at its own or a later position starts with its name plus `/`. The same code is at src/getpack/resource.py:184-193. |
| `Extraction.CoveredPruned` | src/getpack/extraction.py:58-64 | A member below `x` exists among the pruned later members iff it exists among all later members. Deleting later members therefore never changes a decision, because "below" is transitive through `/` prefixes. |
| `Extraction.PrunedMembers` | src/getpack/extraction.py:57-65 | Every listed tar member is a member of the archive. |
| `Extraction.PrunedIsSubsequence` | src/getpack/extraction.py:57-65 | The tar listing is a subsequence of the member names, in their original relative order. |
| `Extraction.PrunedIdempotent` | src/getpack/extraction.py:57-65 | Pruning the tar listing again returns it unchanged. |
| `Extraction.PrunedKeepsLast` | src/getpack/extraction.py:58-64 | The last member is always kept, as the last element of the listing. |
| `Extraction.PrunedUnrelated` | src/getpack/extraction.py:58-64 | When no member starts with another's name plus `/`, the listing is the member list itself. |
| `Extraction.DirectoryAfterContentsKept` | src/getpack/extraction.py:59-60 | `["a/b", "a"]` is kept whole, because a directory listed after its contents survives. `["a", "a/b"]` loses `a`. |
| `Archives.ChooseExtractor` | src/getpack/resource.py:213-217 | There is no extractor iff no plugin pattern matches. Otherwise the chosen extractor belongs to the first matching pattern in plugin order. |
| `Archives.ZipNamesChooseZip` | src/getpack/resource.py:202-205 | Any newline-free name of at least five characters ending in `.zip` or `.whl` selects the zip extractor. This holds in both generations (also src/getpack/__init__.py:146-148). |
| `Archives.TarGzChoosesTar` | src/getpack/resource.py:202-205 | Any newline-free name ending in `.tar.gz` after at least one character selects the tar extractor in the current module. An example is the `glue-0.13.tar.gz` source release. The first module (src/getpack/__init__.py:146-148) has no extractor for such a name. |
| `Archives.TrailingNewlineChoosesZip` | src/getpack/resource.py:203 | `$` also matches before a final newline, so `a.zip\n` selects zip. |
| `Archives.TarBz2HasNoExtractor` | src/getpack/resource.py:204 | The optional group ends at `.bz`, so `data.tar.bz2` has no extractor. |
| `Archives.ReadMember` | src/getpack/resource.py:171-196 | `get_bytes` returns the bytes of the last member of that name. It fails iff there is no such member (KeyError), or, for tar only, when that member is a directory (`extractfile` gives None). |
| `Archives.FirstMatch` | src/getpack/resource.py:222-229 | The rule chosen is the first in map order whose key the file name starts with. None means no key matches, and the member is skipped. |
| `Archives.Destination` | src/getpack/resource.py:220-231 | A member has no destination exactly when no key matches. The current loop fails, with an AssertionError, exactly when the rewritten name `v['path'] + filename[len(k):]` is empty or starts with `/`. Otherwise the destination is the root followed by that name's components. The earlier loops (src/getpack/__init__.py:165-171, src/redeploy/__init__.py:49-56) never fail and write at `root/path/filename`. The guarded form also rejects a `..` component, and every destination it gives lies inside the root. |
| `Archives.DefaultMapIdentity` | src/getpack/resource.py:201 | The default map `{'': {'path': ''}}` sends every member to its own name. |
| `Archives.FfmpegMapExample` | src/getpack/library/ffmpeg.py:11-15 | The catalogued ffmpeg map flattens `.../bin/ffmpeg.exe` to `ffmpeg.exe` and skips `README.txt`. |
| `Archives.PrefixOnlyExample` | src/getpack/resource.py:225 | Keys match only at the start of a name: `bin/` does not select `pkg/bin/tool.exe`. |
| `Archives.DotDotPassesAssertion` | src/getpack/resource.py:230-231 | The assertion rejects only a leading `/`. `../x` passes and is joined as the components `..`, `x`. The guarded assertion rejects it. |
| `Archives.AcceptedInside` | src/getpack/resource.py:226-231 | A destination the loop accepts lies inside the root, entered without `..`, whenever the map sends the member to a name free of `..` or the loop is the guarded one. |
| `Archives.ParentStepResolves` | src/getpack/resource.py:231 | `root/../x` resolves to `x` beside the root, which is not below the root. |
| `Archives.DotDotWritten` | src/getpack/resource.py:220-237 | Under the default map, the current loop writes the zip member `../x` at `root/../x`. On the way it adds the literal entry `root/..` to the model's tree; on disk that entry is the parent that already exists. |
| `Archives.DotDotEscapes` | src/getpack/resource.py:220-237 | The member `../x` is extracted by the current loop to a file that the operating system places outside the root. The guarded loop fails on it instead. |
| `Archives.LayoutDiffers` | src/getpack/__init__.py:165-171 | For the rule `{dir + '/': ''}`, the first module and redeploy write `dir/name` at `root/dir/name`. The current loop (src/getpack/resource.py:226) writes it at `root/name`. |
| `Archives.WriteMember` | src/getpack/resource.py:232-237 | On success the target holds exactly the member's bytes. Otherwise no directory disappears, the only new directories lead to the target's parent, and no file but the target changes. This covers all three write sequences: truncate first; `write_bytes` (src/getpack/__init__.py:172-174); unlink first (src/redeploy/__init__.py:57-61). |
| `Archives.ExtractAll` | src/getpack/resource.py:220-237 | The extraction loop never removes a directory. Its effect on files is stated by the four lemmas that follow. |
| `Archives.ExtractAllConfined` | src/getpack/resource.py:220-237 | With `..` read as a plain name, the current loop creates directories only below the target root or on the way to it, and changes no file outside the root. The same holds for the paths the operating system resolves when no listed member is mapped through `..`. For the guarded loop it always holds. |
| `Archives.ExtractAllContents` | src/getpack/resource.py:220-237 | After a complete extraction, every destination holds the bytes of the last listed member mapped to it. |
| `Archives.ExtractAllUntouched` | src/getpack/resource.py:220-237 | A file that no listed member is mapped to keeps its presence and contents. |
| `Archives.ExtractAllNewFiles` | src/getpack/resource.py:220-237 | Every file the loop creates is the destination of some listed member. |
| `Archives.DeployTo` | src/getpack/resource.py:210-237 | `_deploy_to` completes only if the archive name was fetched and non-empty, some plugin matched it, and the download succeeded. It never removes a directory. |
| `Archives.DeployToConfined` | src/getpack/resource.py:210-237 | With `..` read as a plain name, the current `_deploy_to` writes only inside its target directory and on the way to it. On resolved paths this holds when no archive member is mapped through `..`, and always for the guarded loop. |
| `Archives.MakeAvailable` | src/redeploy/__init__.py:44-61 | A failed download is re-raised and nothing is written. The contents of a completed run are stated by `Archives.MakeAvailableContents`. |
| `Archives.MakeAvailableContents` | src/redeploy/__init__.py:47-61 | After a completed `make_available`, each written file holds the bytes of the last zip member of the name mapped to it. Any existing file there was replaced. |
| `Archives.FolderEntryTarget` | src/getpack/__init__.py:163-171 | Under the default map, the first module writes the folder entry `dir/` at `root/dir` and `dir/name` at `root/dir/name`. |
| `Archives.FolderEntryWritten` | src/getpack/__init__.py:171-174 | The folder entry `dir/` becomes an empty file at `root/dir`. |
| `Archives.NestedEntryFails` | src/getpack/__init__.py:172-173 | With `root/dir` a file, writing `dir/name` fails with FileExistsError while its parent is created. |
| `Archives.FolderEntryBreaksFullListing` | src/getpack/__init__.py:136-174 | The first module lists folder entries too (line 137). So an archive holding `dir/` and then `dir/name` fails to extract, and the current zip listing skips `dir/`. |
| `FileSystem.Join` | src/getpack/resource.py:92-93 | `base / s`: an absolute `s` replaces the base. A relative one appends its components, with empty and `.` parts dropped. |
| `FileSystem.ResolveAppend` | src/getpack/resource.py:231 | Appending components without `..` to a path appends the same components to the resolved path. |
| `FileSystem.InsideResolves` | src/getpack/resource.py:231 | A path below the root reached without `..` stays below the root once resolved. |
| `FileSystem.Children` | src/getpack/resource.py:99-100 | `iterdir()` yields exactly the names of the directories and files one level below. |
| `FileSystem.MkdirP` | src/getpack/resource.py:116-117 | `mkdir(parents=True)` leaves the path a directory. It adds only the path and its missing ancestors, and changes no file. It fails exactly when the path is already a directory and `exist_ok` is false, or when a file stands at the path or at one of its ancestors. The error is FileExistsError or NotADirectoryError. |
| `FileSystem.EnsureParent` | src/getpack/resource.py:124-125 | Afterwards the parent is a directory. Files are unchanged, and only ancestors of the parent are new. |
| `FileSystem.WriteFile` | src/getpack/resource.py:236-237 | `open(p, 'wb').write(data)` succeeds iff `p` is not a directory and its parent is one. Then `p` holds exactly `data` and nothing else changes. |
| `FileSystem.Unlink` | src/redeploy/__init__.py:59-60 | `unlink` succeeds iff `p` is a file. Then it removes only `p`. |
| `FileSystem.RmTree` | src/getpack/resource.py:133-135 | `rmtree(p)` removes `p` and everything below it, and nothing else. |
| `FileSystem.Rename` | src/getpack/resource.py:126 | `rename` of a directory, the only kind of source the deploys rename, succeeds iff the source is a non-root directory, the destination does not exist, the destination's parent is a directory, and the destination is not inside the source. |
| `FileSystem.RenameAt` | src/getpack/resource.py:126 | Pointwise effect of a rename. Paths outside both trees are unchanged, and the source tree is gone. Below the destination are exactly the directories and files that were below the source, each file with its bytes. |
| `FileSystem.RenameMovesRoot` | src/getpack/resource.py:126 | After a rename the destination is a directory and the source no longer exists. |
| `TempNames.Hex` | src/getpack/resource.py:114-115 | `'{:020x}'` gives exactly `width` lower-case hexadecimal digits. |
| `TempNames.ParseHexOfHex` | src/getpack/resource.py:114-115 | Formatting a draw and reading the digits back gives the draw. |
| `TempNames.HexOfParseHex` | src/getpack/resource.py:114-115 | Reading hexadecimal digits and formatting at the same width gives the digits back. |
| `TempNames.HexNameShape` | src/getpack/resource.py:114-115 | Twenty hexadecimal digits plus `.temp` make a plain path component that ends in `.temp`. |
| `TempNames.TempName` | src/getpack/resource.py:114-115 | A staging name is 25 characters long, ends in `.temp`, and is one plain path component. |
| `TempNames.TempNameInjective` | src/getpack/resource.py:114-115 | Different draws give different staging names. |
| `Strings.AfterLastSlash` | src/getpack/resource.py:254 | `rsplit('/', 1)[1]` succeeds iff the string has a `/`, otherwise IndexError. The result holds no `/`, and the string ends with `/` plus the result. |
| `Resources.PathOf` | src/getpack/resource.py:92-93 | With relative parts, the path is the base followed by the components of `local_prefix`, `name` and `version`. |
| `Resources.PathOfPlain` | src/getpack/resource.py:92-93 | With a plain name and version, the version directory is the last component. Its parent is `base/prefix/name`. |
| `Resources.CachedPath` | src/getpack/resource.py:89-94 | The `path` property returns the stored `_path` when there is one. Otherwise it stores and returns the computed one. The first module does the same (src/getpack/__init__.py:76-81). |
| `Resources.CachedPathSticky` | src/getpack/resource.py:91-94 | Once computed, the path ignores later changes of name or version. |
| `Resources.AvailableVersions` | src/getpack/resource.py:96-102 | Nothing is listed when the parent is not a directory. Otherwise a name not ending in `.temp` is listed iff an entry of that name exists in the parent, and no `.temp` name is ever listed. |
| `Resources.ListedIffExists` | src/getpack/resource.py:96-102 | A version not ending in `.temp` is listed exactly when its path exists. |
| `Resources.StagingNeverListed` | src/getpack/resource.py:99-102 | No staging-directory name is ever reported as a version. |
| `Resources.Cleanup` | src/getpack/resource.py:132-135 | Afterwards the path is not a directory and nothing outside it changed. Nothing at all changes when it was not a directory. The first module's `cleanup` is the same (src/getpack/__init__.py:106-109). |
| `Resources.FirstFree` | src/getpack/resource.py:113-118 | Gives the position of the first candidate from attempt `i` on that is not a directory. Every earlier candidate is a directory. None means all of them are. |
| `Resources.FindTemp` | src/getpack/resource.py:113-122 | The search is exhausted iff all hundred candidates are directories. It then reports the last candidate. Otherwise the first non-directory candidate is passed to `mkdir(parents=True)`, which creates it or raises. |
| `Resources.CreatedTemp` | src/getpack/resource.py:116-117 | The created staging directory did not exist before. The only other new directories are its ancestors, and no file changed. |
| `Resources.Unwind` | src/getpack/resource.py:127-130 | The `except` clause keeps the exception. It removes the staging tree, and only that, when it is a directory. |
| `Resources.Complete` | src/getpack/resource.py:124-126 | The deploy ends normally iff creating the missing parent and then the rename both succeed. If not, no file changed and only ancestors of the version directory are new. |
| `Resources.DeploySucceeds` | src/getpack/resource.py:108-126 | For an archive with no member mapped through `..`, after a successful deploy of a version not ending in `.temp`, the version directory exists and the version is listed. Every `.temp` sibling present afterwards was present before, so this call's staging directory is gone. This holds for both `except` clauses. |
| `Resources.DeployPublishes` | src/getpack/resource.py:110-126 | After a successful deploy, every file the extraction left below the staging directory is at the same place below the version directory, with the same bytes. |
| `Resources.DeployContents` | src/getpack/resource.py:110-126 | After a successful deploy, the version directory holds, at each place the extraction map sends a listed member, the bytes of the last listed member sent there. |
| `Resources.DeployFailureLeavesNoVersion` | src/getpack/resource.py:109 | For an archive with no member mapped through `..`, after a failed deploy the version directory is absent, because `cleanup` ran first. This holds for both forms of the `except` clause. |
| `Resources.DeployErrorPropagates` | src/getpack/resource.py:112-130 | A failed deploy re-raises exactly the exception raised by the exhausted search, the staging `mkdir`, `_deploy_to`, the parent `mkdir` or the `rename`. After any failure past the staging `mkdir`, the staging tree is gone and nothing else changed. On an exhausted search, the shipped clause removes the last candidate's tree and nothing else, and the corrected one changes nothing. |
| `Resources.OwnOnlyKeepsForeignDirs` | src/getpack/resource.py:127-130 | The corrected deploy removes no directory that existed before it, other than the version directory's own tree. |
| `Resources.AsWrittenRemovesForeignDir` | src/getpack/resource.py:119-130 | The shipped deploy removes an existing staging directory it did not create when every candidate exists. The corrected one leaves the tree unchanged. |
| `Resources.Provide` | src/getpack/resource.py:67-77 | When already available, `provide` does nothing. Otherwise a missing name or version fails the assertion without changes. A listed version only sets the flag. Any other version is deployed with the chosen `except` clause, the shipped one or the corrected one. Afterwards the flag is set iff it was set or the call succeeded. |
| `Resources.ProvideIdempotent` | src/getpack/resource.py:69-70 | After a successful `provide`, the next one does nothing, whatever has happened on disk. |
| `Resources.ProvideLists` | src/getpack/resource.py:73-77 | After a successful first `provide` of a plain version, from an archive with no member mapped through `..`, that version is listed. |
| `Resources.ProvideContents` | src/getpack/resource.py:67-77 | A `provide` that deploys leaves the archive's contents in the version directory: each mapped place holds the bytes of the last member sent there. |
| `Resources.CleanupKeepsAvailable` | src/getpack/resource.py:132-135 | `cleanup` does not reset `_available`. After it, `provide` does nothing and the version directory stays missing. |
| `Packages.ProvideOwn` | src/getpack/resource.py:273 | `Resource.provide` on the object itself changes only its own flags and the disk. Its flag is set iff it was set or the call succeeded. The deploy uses the environment's `except` clause, so the shipped clause gives the shipped `provide`. |
| `Packages.OnPath` | src/getpack/resource.py:274-275 | The path is inserted at the front of `sys.path` unless already present, so `sys.path` grows by at most one entry, that path. An already-present cached path changes nothing. |
| `Packages.ProvideRequirements` | src/getpack/resource.py:271-272 | Providing the requirements in order never unsets a flag. It only prepends to `sys.path`, adds no duplicate, and on success leaves every requirement available. |
| `Packages.ProvidePkg` | src/getpack/resource.py:270-275 | `PythonPackage.provide` leaves activation alone, never unsets an available flag, and only prepends to `sys.path`, without duplicates. On success the package and every requirement are available, and its path is on `sys.path`. |
| `Packages.ActivatePkg` | src/getpack/resource.py:277-283 | Once activated, `activate` does nothing. A plain resource has no `activate`. On success the package and each requirement are activated, and the package is available. Only objects of its tree become activated. A failed import leaves it not activated. |
| `Packages.ActivateRequirements` | src/getpack/resource.py:281 | Activating the requirements in order activates only objects of their trees. On success every requirement is activated. |
| `Packages.ActivateIdempotent` | src/getpack/resource.py:278-279 | Activating twice is activating once. |
| `Packages.ProvideLeafPath` | src/getpack/resource.py:274-275 | A package without requirements adds at most one `sys.path` entry: its own path, at the front. |
| `Packages.ProvideTwiceSamePath` | src/getpack/resource.py:270-275 | After any successful `provide`, requirements included, providing again changes nothing, so `sys.path` stays as it is. |
| `Packages.FullyProvidedStays` | src/getpack/resource.py:270-275 | Later provides and activates keep a fully provided package fully provided. That means available, its cached path on `sys.path`, and its requirements fully provided in turn. |
| `Packages.ProvideEstablishes` | src/getpack/resource.py:270-275 | A successful `provide` leaves the package fully provided. |
| `Packages.ProvideRequirementsEstablish` | src/getpack/resource.py:271-272 | A successful requirement loop leaves each requirement it visited fully provided. |
| `Packages.ProvideNoop` | src/getpack/resource.py:270-275 | Providing a fully provided package returns normally and changes nothing. |
| `Packages.ProvideRequirementsNoop` | src/getpack/resource.py:271-272 | The requirement loop over fully provided requirements changes nothing. |
| `Legacy.OldDeploy` | src/getpack/__init__.py:97-104 | A successful first-generation deploy leaves the version directory in place. A failed `mkdir` of the staging directory is re-raised after `cleanup`. |
| `Legacy.OldDeployLeavesStaging` | src/getpack/__init__.py:100-101 | A failed extraction leaves the `mkdtemp` directory behind, because nothing rolls back. |
| `Legacy.EnsureAvailable` | src/getpack/__init__.py:87-95 | Once initialized, `_ensure_available` does nothing. Otherwise a missing name or version fails the assertion. An existing version directory returns without setting `initialized`. Anything else sets it and then deploys. |
| `Legacy.FailedDeployNotRetried` | src/getpack/__init__.py:94-95 | After a failed download the version directory is missing, but the next call reports success without deploying. |
| `Legacy.CurrentDeployRetried` | src/getpack/resource.py:76-77 | In the current module a failed deploy leaves `_available` unset, so the deploy is retried. |
| `Legacy.IndexOf` | src/getpack/__init__.py:216 | The position `list.remove` acts on: an occurrence of the entry with no earlier one. |
| `Legacy.RemoveFirst` | src/getpack/__init__.py:216 | `sys.path.remove(x)`, called only when `x` is present, drops exactly the first occurrence of `x`: the list before it and the list after it are kept, and the multiset loses one `x`. |
| `Legacy.InsertRemoveRestores` | src/getpack/__init__.py:212-216 | Inserting at the front and then removing the same entry restores `sys.path`. |
| `Legacy.EnsureOwn` | src/getpack/__init__.py:211 | `_ensure_available` changes only the object's own flags and the disk. |
| `Legacy.CallRequirements` | src/getpack/__init__.py:209 | Calling the requirements in order activates only objects of their trees and only prepends to `sys.path`. On success every requirement is activated. |
| `Legacy.Call` | src/getpack/__init__.py:204-218 | Once activated, `__call__` does nothing, and a non-package raises NotImplementedError. On success the requirements and the package are activated and its path is first on `sys.path`. A failed import leaves it not activated. |
| `Legacy.ImportFailureRestoresPath` | src/getpack/__init__.py:209-217 | When the import fails, `__call__` fails. `sys.path` is then exactly as the requirement calls left it, which for a package without requirements is as it was before the call. A package that does not require itself stays not activated. |
| `Legacy.CallDuplicatesPath` | src/getpack/__init__.py:212 | `__call__` inserts its path again even when it is already on `sys.path`, creating a duplicate. The current `provide` checks membership first. |
| `PyPi.Keep` | src/getpack/resource.py:317-321 | The list comprehension keeps exactly the accepted releases and is no longer than its input. |
| `PyPi.FirstKept` | src/getpack/resource.py:328 | Reference for "take the first": the position of the first accepted release, with nothing accepted before it. None means nothing is accepted. |
| `PyPi.KeepHead` | src/getpack/resource.py:317-328 | The filtered list is non-empty iff some release is accepted. Its head is the first accepted release. |
| `PyPi.SelectRelease` | src/getpack/resource.py:312-328 | A lone source release is chosen as is. Otherwise the first release whose name contains `win_amd64` or matches `\Wany\W` is chosen. Having none is an assertion failure. |
| `PyPi.OldSelectRelease` | src/getpack/__init__.py:257-269 | The first module chooses the first `win_amd64` release. Having none is an assertion failure. |
| `PyPi.SelectionWidened` | src/getpack/resource.py:317-321 | Whenever the first module finds a release, the current selection finds one too, at the same or an earlier position. |
| `PyPi.ReleaseInfo` | src/getpack/resource.py:303-329 | A cached `_release_info` is returned as is. A version missing from the index raises KeyError. Otherwise the selection is returned, and it is cached only on success. |
| `PyPi.ArchiveUrl` | src/getpack/resource.py:331-336 | A non-empty cached URL is returned as is. Otherwise the selected release's URL is returned and cached. It succeeds exactly when `release_info` does. |
| `PyPi.ArchiveUrlCached` | src/getpack/resource.py:333-336 | After one successful access, the next returns the same URL whatever the index now says. |
| `PyPi.OldArchiveUrl` | src/getpack/__init__.py:248-270 | The first module returns a cached non-empty URL as is. Otherwise it returns and caches the URL of its platform-only selection, raising KeyError for a missing version. |
| `PyPi.UrlPath` | src/getpack/resource.py:254 | The path that `urlparse` returns never holds a query or fragment separator. |
| `PyPi.SplitParams` | src/getpack/resource.py:254 | `_splitparams` keeps a prefix of the path. The prefix ends just before a `;`, and no `/` follows that `;`. Every `;` kept in the prefix has a `/` after it. A path without `;` is kept whole. |
| `PyPi.ParamsOfLastSegment` | src/getpack/resource.py:254 | Parameters are cut from the last segment only. In `x/y;z` the path ends at `x/y`, whatever `;` occur in `x`. |
| `PyPi.HttpUrlPath` | src/getpack/resource.py:254 | For an `http` URL with a plain network location, the path is the rest of the URL with the last segment's parameters cut. |
| `PyPi.ArchiveNameOfLastSegment` | src/getpack/resource.py:252-254 | The archive name of `http://host x/y;z` is `y`, the last segment up to its first `;`, so `http://h/a;b/c;d` is named `c`. |
| `PyPi.ArchiveName` | src/getpack/resource.py:252-254 | `archive_name` succeeds iff the URL path has a `/`. The name is the path's text after its last `/`, free of `/`, `?` and `#`. |
| `PyPi.OldArchiveName` | src/getpack/__init__.py:187-189 | The first module's `archive_name` is the raw URL's text after its last `/`. It raises IndexError when there is none. |
| `PyPi.ArchiveNamesAgree` | src/getpack/resource.py:252-254 | For a URL without query, fragment or parameters whose path has a `/`, both generations give the same archive name. |
| `Redeployment.VersionDir` | src/redeploy/__init__.py:55-56 | With a plain version, the version directory is `local_base/name/version`. |
| `Redeployment.GetAvailableVersions` | src/redeploy/__init__.py:19-23 | Nothing is listed when `local_base/name` is not a directory. Otherwise every entry is listed, with no `.temp` filter. |
| `Redeployment.StagingListedHere` | src/redeploy/__init__.py:19-23 | A staging directory is reported as a version here, where the current module hides it. |
| `Redeployment.EnsureAvailable` | src/redeploy/__init__.py:25-32 | Once initialized, `ensure_avaialble` does nothing. A missing version fails the assertion, and a listed version returns without changes. Otherwise `initialized` is set, then `make_available` runs. |
| `Redeployment.FailureNotRetried` | src/redeploy/__init__.py:26-32 | A failed `make_available` is never repeated: the next call returns at once. |
| `Redeployment.EnsureAvailableContents` | src/redeploy/__init__.py:55-61 | After a successful first call, each written file holds the last archive member mapped to it. |
| `Redeployment.Activate` | src/redeploy/__init__.py:67-73 | Once activated, `activate` does nothing. An availability failure is re-raised. Otherwise `activated` is set and the version directory is put first on `sys.path`, before the import. The call succeeds iff the import does. |
| `Redeployment.ImportFailureSticks` | src/redeploy/__init__.py:71-73 | A failed import leaves the package activated with its `sys.path` entry. The next `activate` does nothing and reports success. |

## Left out

- Network I/O: `urlopen`, the status-200 check and the PyPI JSON fetch.
  The downloaded archive, the archive name and the release index are
  inputs, each a value or the exception the fetch raised.
- Archive decoding: `zipfile` and `tarfile` are replaced by a sequence of
  members (name, directory flag, bytes).
- `str.format` substitution of `{self...}` in map keys and URLs is taken as
  already applied.
- `random.randrange(16**20)` and `tempfile.mkdtemp()` are oracle inputs
  (`draws`, `temps`). Only the hundred-try bound, the 20-digit format and
  the `.temp` suffix are modelled.
- `__import__` is a set of importable module names. `sys.modules`, `get`
  and the `__getattr__` forwarding of both earlier generations are left
  out: they only call `activate` / `__call__` and read a module attribute.
- Concurrency: the code has no lock, and a sequential model cannot express
  crash safety or the atomicity of `rename`.
- Listing order: `iterdir` / `os.listdir` order is not defined. Available
  versions are a set, not a list.
- Paths: the disk model keys files and directories by their literal
  components, so `root/../x` and the sibling `x` are different entries.
  `FileSystem.Resolve` gives the path the operating system reaches, and
  confinement on resolved paths is stated separately, by
  `Archives.ExtractAllConfined` and `Archives.DeployToConfined`. Windows
  drive letters and separators are not modelled, and `rename` follows the
  Windows rule (an existing destination is an error).
- `Resources.DeploySucceeds`, `Resources.DeployFailureLeavesNoVersion` and
  `Resources.ProvideLists` are stated only for archives with no member
  mapped through `..`. The shipped loop can write such a member outside
  the staging directory, for example into a `.temp` sibling or into the
  version directory itself, and the literal-path model does not follow
  that write (see Findings).
- `PyPi.UrlPath`: covers what `archive_name` needs of `urlparse`: the
  scheme, `//netloc`, `;params` on the last segment, `?query` and
  `#fragment`. It does not model the removal of tab, CR and LF characters,
  the stripping of leading C0 control characters and spaces, the
  ValueError for an unbalanced `[` or `]` in the network location,
  percent-decoding, or the Python 2 `six` shim.
- `PyPi.Keep`: the `\Wany\W` filter it is given treats only ASCII letters,
  digits and `_` as word characters. Python 3's `re` also counts other
  Unicode letters and digits, so for a file name such as `éanyé` the model
  accepts a release that the source rejects.
- `Archives.ExtractAll`: its own contract only says that no directory
  disappears. What it writes is stated separately by
  `Archives.ExtractAllContents`, `Archives.ExtractAllUntouched`,
  `Archives.ExtractAllNewFiles` and `Archives.ExtractAllConfined`, because
  the loop is recursive over the listing.
- `Archives.MakeAvailable`: its own contract covers only the failed
  download. The contents it writes are stated by
  `Archives.MakeAvailableContents`.
- `Legacy.OldDeploy`: states the success and `mkdir`-failure cases. The
  missing rollback is stated by `Legacy.OldDeployLeavesStaging`. The
  `tempfile.mkdtemp()` result is an unconstrained oracle path created with
  `mkdir(parents=True)`. So the model can fail with FileExistsError when
  that path exists, and can create missing ancestors. The real `mkdtemp`
  retries names until one is free and creates only the leaf.
- `Legacy.RemoveFirst`: the ValueError that `list.remove` raises for an
  absent entry is not modelled. The function requires the entry, and its
  one caller, `Legacy.Call`, removes only the entry it has just inserted.
- `sys.path` entries: the source compares `str(self.path)` strings with the
  entries of `sys.path`. The model keeps `sys.path` as a sequence of
  component paths, so a foreign entry that names the same directory with a
  different spelling (a trailing separator, `.` or `..` components, another
  letter case on Windows) cannot be represented. The "no duplicates" claims
  of `Packages.OnPath`, `Packages.ProvideRequirements` and
  `Packages.ProvidePkg` are about these component paths.
- `FileSystem.Rename` models only a directory source: a file source returns
  NotFound, where `Path.rename` would move the file. The deploys only ever
  rename a staging directory.
- Redeploy's `name = None` default: a missing name makes
  `local_base / None` raise TypeError. The model takes the name as a
  string.
- Logging, `src/getpack/executable.py` (a `subprocess` wrapper), and the
  catalog records of `src/getpack/library/`. The ffmpeg extraction map is
  used once, as a concrete vector in `Archives.FfmpegMapExample`.

## Findings

| source | as written | input that shows it | evidently intended | confidence | as-written member | corrected member |
|---|---|---|---|---|---|---|
| src/getpack/resource.py:119-130 | When all 100 candidates already exist as directories, the `for ... else` raises inside the `try`. The `except` clause then runs `shutil.rmtree(temp_path)` on the last candidate, a staging directory that another deploy created and this call never made. | Every draw names the existing directory `<hex>.temp` beside the version directory. The shipped deploy ends with that directory deleted. | Remove `temp_path` only when this call created it, so a failed deploy never deletes a directory that existed before it, apart from the version directory that `cleanup` removes. | medium; not executed | `Resources.DeployAsWritten`, shown by `Resources.AsWrittenRemovesForeignDir` | `Resources.Deploy`, proved by `Resources.OwnOnlyKeepsForeignDirs` |
| src/getpack/resource.py:226-237 | The assertion `dest_path and dest_path[0] != '/'` only rejects an absolute name. A member whose rewritten name holds a `..` component passes it, and `path / dest_path` is then opened for writing outside the extraction root. | A zip archive with the single member `../x`, under the default map, extracted below `root`. The file is written at `root/../x`, the sibling `x` of `root`. | Reject every destination with a `..` component, so that each write lands inside the extraction root. | medium; not executed | `Archives.Destination` with `Current`, shown by `Archives.DotDotEscapes` and `Archives.DotDotWritten` | `Archives.Destination` with `Guarded`, proved by `Archives.ExtractAllConfined`, `Archives.DeployToConfined` and `FileSystem.InsideResolves` |
