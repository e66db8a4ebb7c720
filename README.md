# RetroLauncher core in Dafny

A model of the decision logic of RetroLauncher, a JavaFX launcher that keeps user profiles of
emulators and ROM files and starts a ROM with a chosen emulator. The model covers:

- `UpdateManager`: comparing dotted version strings, reading the recorded version from the
  lines of the `VERSION` file, the update decision, the choice of the release asset for the
  running platform and the argument vector handed to the separate updater.
- `ZipManager`: detection of a first path segment shared by all entries of an update archive,
  its removal from each entry name and the placement of each entry under the destination.
- `EmulatorSelectionController`: combining the emulator's and the ROM's argument text, filling
  the `{emu}` and `{rom}` placeholders, cutting the text into `Scanner` tokens and building the
  process command and working directory.
- `Emulator`: the constructor, id allocation by `setUniqueId` (with 32-bit wrap-around) and
  `equals`.
- `ConfigManager`: the single configuration object with its profile list and current index,
  `getInstance`, `getCurrentUserProfile`, `setCurrentUserProfileIndex` and the state effect of
  `loadConfig`.
- `MainController`: the search/filter predicate of the ROM table, the list of emulators
  compatible with a ROM and the favourite toggle.
- `AddRomController`: normalisation of the comma-separated console and genre fields, input
  validation and adding a ROM to the profile's list, which is then sorted by name.

Java library behaviour the code relies on is written out in `java_strings.dfy`: `String.split`
on one character (trailing empty pieces dropped, `""` gives `[""]`), `trim` (removes characters
up to `' '`), `replace` (left to right, non-overlapping), `contains`, `compareTo` order on
strings, `String.join`, and the tokens of a default `Scanner` (separated by
`Character.isWhitespace` characters, quote characters kept as ordinary characters).

Model objects whose fields the code updates in place (`Emulator`, `LaunchParameters`,
`RomFile`, `UserProfile`, `ConfigManager`) are classes; the static `instance` field of
`ConfigManager` is the field of a separate `ConfigManagerInstance` object. Loops of the source
(`isVersionNewer`, `findCommonRoot`, the entry loop of `unzip`, the `Scanner` loop of
`parseArguments`, the command list of `launchRomWithEmulator`) are methods proved against
functions that state their result.

Inputs the code gets from its environment are parameters: the result of the GitHub release
request (`Fetch`), the lines of the `VERSION` file, `os.name`, the file separator, whether a
file exists, whether `Updater.jar` exists, the installation root, and the content of
`config.json` (`ConfigFile`).

Where the behaviour described for the launcher and the code differ, the model follows the code:
`parseArguments` is described as keeping quoted substrings together, but it uses a `Scanner`,
which splits at every whitespace character and keeps the quote characters. The ROM path in the
command is therefore the token `"<path>"` with its quotes, and a path containing a blank is two
arguments.

## Model

All source paths are under `src/main/java/com/karandaev/retrolauncher/`; the table gives them in full.

| member | source | states |
|---|---|---|
| UpdateManager.IsVersionNewer | src/main/java/com/karandaev/retrolauncher/utils/UpdateManager.java:184-202 | the index loop with early returns gives exactly `VersionNewer`: one leading `v` stripped on each side, components split on `.`, missing components read as 0, a non-numeric component reached by the loop is an error |
| UpdateManager.NeverNewerThanItself | src/main/java/com/karandaev/retrolauncher/utils/UpdateManager.java:191-201 | a version is never newer than itself |
| UpdateManager.NewerIsAsymmetric | src/main/java/com/karandaev/retrolauncher/utils/UpdateManager.java:192-200 | `a` newer than `b` and `b` newer than `a` never both hold |
| UpdateManager.VersionNewerNumeric | src/main/java/com/karandaev/retrolauncher/utils/UpdateManager.java:188-201 | on numeric components the result is the order `Newer`: at the first index where the zero-padded values differ, the latest one is larger |
| UpdateManager.CompareFromNumeric | src/main/java/com/karandaev/retrolauncher/utils/UpdateManager.java:192-201 | the comparison from any index whose earlier components agree is `Newer` on the values |
| UpdateManager.LeadingVIgnored | src/main/java/com/karandaev/retrolauncher/utils/UpdateManager.java:185-186 | one leading `v` on either side does not change the result |
| UpdateManager.VersionExampleMinor | src/main/java/com/karandaev/retrolauncher/utils/UpdateManager.java:185-199 | "1.2.0" is newer than "1.1.9" |
| UpdateManager.VersionExampleMajor | src/main/java/com/karandaev/retrolauncher/utils/UpdateManager.java:191-196 | "2" is newer than "1.99.99": a larger first component decides |
| UpdateManager.VersionExampleTrailingZero | src/main/java/com/karandaev/retrolauncher/utils/UpdateManager.java:191-194 | neither of "1.0" and "1.0.0" is newer than the other |
| UpdateManager.GetVersion | src/main/java/com/karandaev/retrolauncher/utils/UpdateManager.java:43-60 | the result is "unknown" or a `v`-prefixed dotted number; an absent file gives "unknown" |
| UpdateManager.GetVersionFirstMatch | src/main/java/com/karandaev/retrolauncher/utils/UpdateManager.java:47-52 | the version is the first line that, trimmed, matches `^v(\d+\.)+\d+$`, returned trimmed |
| UpdateManager.GetVersionNoMatch | src/main/java/com/karandaev/retrolauncher/utils/UpdateManager.java:52 | a file with no matching line gives "unknown" |
| UpdateManager.VersionLineParses | src/main/java/com/karandaev/retrolauncher/utils/UpdateManager.java:50 | a recorded version is already trimmed and has at least two components, all numeric |
| UpdateManager.DigitRunsPieces | src/main/java/com/karandaev/retrolauncher/utils/UpdateManager.java:50 | the dot-separated pieces of `(\d+\.)*\d+` are all digit runs, two or more when a dot occurs |
| UpdateManager.IsUpdateAvailable | src/main/java/com/karandaev/retrolauncher/utils/UpdateManager.java:117-132 | a failed fetch gives false even for an unknown version; a fetched release with an unknown local version gives true |
| UpdateManager.UpdateAvailableForKnownVersion | src/main/java/com/karandaev/retrolauncher/utils/UpdateManager.java:124-131 | with a recorded version and a numeric tag, an update is available exactly when the trimmed tag is `Newer`; a tag equal to the version is no update |
| UpdateManager.FirstAssetWith | src/main/java/com/karandaev/retrolauncher/utils/UpdateManager.java:140-143 | the URL of the first asset in list order containing the fragment, and nothing exactly when no asset URL contains it |
| UpdateManager.DownloadUrl | src/main/java/com/karandaev/retrolauncher/utils/UpdateManager.java:134-162 | nothing for a failed fetch or an unrecognised platform; a URL found contains the platform's fragment |
| UpdateManager.LinuxIsUnix | src/main/java/com/karandaev/retrolauncher/utils/UpdateManager.java:137-149 | "Linux" fails the `win` and `mac` tests and passes the `nux` test |
| UpdateManager.LinuxPicksUbuntuAsset | src/main/java/com/karandaev/retrolauncher/utils/UpdateManager.java:149-153 | on Linux a release with a Windows and an Ubuntu asset yields the Ubuntu asset |
| UpdateManager.TryUpdate | src/main/java/com/karandaev/retrolauncher/utils/UpdateManager.java:62-90 | the update is offered exactly when an update is available and a URL was found, and then with that URL; a version error propagates |
| UpdateManager.UpdaterCommandShape | src/main/java/com/karandaev/retrolauncher/utils/UpdateManager.java:227-258 | the updater runs exactly when the platform is known and Updater.jar exists, as `[dir/bin/java(.exe), -jar, dir/Updater.jar, dir, installRoot]`; `chmod +x` targets the same Java on macOS and Unix only |
| ZipManager.FindCommonRoot | src/main/java/com/karandaev/retrolauncher/utils/ZipManager.java:56-79 | the scan with early returns gives `CommonRoot`: the shared first segment, or "" for no entries, a name splitting into no parts, or two different first segments |
| ZipManager.CommonRootIsShared | src/main/java/com/karandaev/retrolauncher/utils/ZipManager.java:66-72 | a non-empty root is the first segment of every entry name |
| ZipManager.SharedRootIsFound | src/main/java/com/karandaev/retrolauncher/utils/ZipManager.java:62-78 | a first segment shared by every name of a non-empty archive is found |
| ZipManager.DifferentRootsGiveNone | src/main/java/com/karandaev/retrolauncher/utils/ZipManager.java:70-71 | two names with different first segments give "" |
| ZipManager.MixedEntriesExample | src/main/java/com/karandaev/retrolauncher/utils/ZipManager.java:66-75 | "a.txt" with "b/c.txt" has no root and both names pass through unchanged |
| ZipManager.StripRootRoundTrip | src/main/java/com/karandaev/retrolauncher/utils/ZipManager.java:32-34 | a rewritten name preceded by `root + "/"` is the original name; with root "" nothing is rewritten |
| ZipManager.RootedNameIsUnderRoot | src/main/java/com/karandaev/retrolauncher/utils/ZipManager.java:32-34 | a name whose first segment is the root is the root itself or `root + "/" + ` its rewritten name |
| ZipManager.PlacementOf | src/main/java/com/karandaev/retrolauncher/utils/ZipManager.java:36-43 | the entry becomes a directory exactly when its name ends in `/`, and its path starts with `destDir + separator` |
| ZipManager.PlaceEntries | src/main/java/com/karandaev/retrolauncher/utils/ZipManager.java:28-45 | the entry loop places every entry, in archive order, at its `PlacementOf` |
| ZipManager.Unzip | src/main/java/com/karandaev/retrolauncher/utils/ZipManager.java:16-47 | the destination is created exactly when it does not exist, and every entry is placed using the detected root |
| ZipManager.SharedRootIsFlattened | src/main/java/com/karandaev/retrolauncher/utils/ZipManager.java:23-36 | with a common root, an entry under it lands at `destDir + separator +` the rest of its name |
| ZipManager.MixedRootsKeepNames | src/main/java/com/karandaev/retrolauncher/utils/ZipManager.java:32-36 | without a common root, each entry lands at `destDir + separator + name` |
| ZipManager.SingleFolderArchive | src/main/java/com/karandaev/retrolauncher/utils/ZipManager.java:16-47 | an archive whose entries all lie in one folder is unpacked without that folder |
| EmulatorSelection.CombineAndReplacePlaceholders | src/main/java/com/karandaev/retrolauncher/controller/EmulatorSelectionController.java:105-120 | the combined text has no leading or trailing blank and always holds the quoted ROM path |
| EmulatorSelection.NoPlaceholders | src/main/java/com/karandaev/retrolauncher/controller/EmulatorSelectionController.java:110-119 | without placeholders the text is the emulator's text, a blank, the ROM's text, a blank and the quoted path, trimmed |
| EmulatorSelection.EmuPlaceholderFilledInPlace | src/main/java/com/karandaev/retrolauncher/controller/EmulatorSelectionController.java:108-117 | a `{emu}` in the ROM's text is replaced in place by the emulator's text, nothing is put in front, and the quoted path is appended |
| EmulatorSelection.RomPlaceholderFilledInPlace | src/main/java/com/karandaev/retrolauncher/controller/EmulatorSelectionController.java:113-114 | a `{rom}` is replaced in place by the quoted path, which is not appended again |
| EmulatorSelection.ParseArguments | src/main/java/com/karandaev/retrolauncher/controller/EmulatorSelectionController.java:128-140 | null or empty text gives no arguments; otherwise the `Scanner` tokens in order |
| JavaStrings.TokensAreWords | src/main/java/com/karandaev/retrolauncher/controller/EmulatorSelectionController.java:134-137 | no token is empty or holds whitespace |
| JavaStrings.TokensSpellInput | src/main/java/com/karandaev/retrolauncher/controller/EmulatorSelectionController.java:134-137 | the tokens together spell every non-whitespace character of the text, in order, quotes included |
| JavaStrings.TokensAreMaximalRuns | src/main/java/com/karandaev/retrolauncher/controller/EmulatorSelectionController.java:134-137 | the text is its tokens interleaved with whitespace runs, and consecutive tokens are separated by at least one whitespace character, so each token is a maximal run |
| JavaStrings.TokensEmptyIff | src/main/java/com/karandaev/retrolauncher/controller/EmulatorSelectionController.java:129-137 | a text yields no token exactly when it is all whitespace |
| EmulatorSelection.RomArgsFor | src/main/java/com/karandaev/retrolauncher/controller/EmulatorSelectionController.java:59-60 | the ROM's override for the emulator's id, and "" when there is none |
| EmulatorSelection.ParentPath | src/main/java/com/karandaev/retrolauncher/controller/EmulatorSelectionController.java:76 | a parent that `File.getParent` finds is a strictly shorter prefix of the path |
| EmulatorSelection.ParentOfFileInDirectory | src/main/java/com/karandaev/retrolauncher/controller/EmulatorSelectionController.java:76 | an executable in a directory runs in that directory; one directly under `/` runs in `/` |
| EmulatorSelection.QuotedPathGivesToken | src/main/java/com/karandaev/retrolauncher/controller/EmulatorSelectionController.java:63-72 | text holding the quoted path yields at least one token |
| EmulatorSelection.LaunchCommandShape | src/main/java/com/karandaev/retrolauncher/controller/EmulatorSelectionController.java:52-76 | the command is the executable followed by exactly the tokens, at least two elements, so the bare-path fallback never applies; the directory is the executable's parent |
| EmulatorSelection.LaunchRomWithEmulator | src/main/java/com/karandaev/retrolauncher/controller/EmulatorSelectionController.java:49-76 | the command list built step by step is `LaunchOf` of the executable, the emulator's text (unset read as ""), the ROM's override and the ROM path |
| EmulatorSelection.CombineAsWritten | src/main/java/com/karandaev/retrolauncher/controller/EmulatorSelectionController.java:105-120 | with the emulator's text set, the code as written gives exactly `CombineAndReplacePlaceholders` |
| EmulatorSelection.UnsetArgumentsPassNull | src/main/java/com/karandaev/retrolauncher/controller/EmulatorSelectionController.java:108-111 | an emulator whose text was never set, without a ROM override, gets the word `null` as its first argument |
| EmulatorSelection.UnsetArgumentsWithEmuPlaceholderThrow | src/main/java/com/karandaev/retrolauncher/controller/EmulatorSelectionController.java:108-109 | unset emulator text with a `{emu}` override makes the launch fail with a null pointer |
| EmulatorSelection.UnsetArgumentsReadAsEmpty | src/main/java/com/karandaev/retrolauncher/controller/EmulatorSelectionController.java:56-72 | reading unset text as "", an emulator without a ROM override gets the quoted ROM path (without whitespace) as its only argument |
| Model.Emulator.constructor | src/main/java/com/karandaev/retrolauncher/model/Emulator.java:23-28 | name, path and consoles as given, no id, a fresh `LaunchParameters` with unset text |
| Model.Emulator.SetUniqueId | src/main/java/com/karandaev/retrolauncher/model/Emulator.java:62-65 | the id becomes `NextId` of the list's ids; no other field changes |
| Model.NextId | src/main/java/com/karandaev/retrolauncher/model/Emulator.java:63-64 | 0 for no emulators; otherwise the largest id plus one, larger than every id, except that after the largest `int` it wraps to the smallest |
| Model.MaxId | src/main/java/com/karandaev/retrolauncher/model/Emulator.java:63 | the maximum is one of the ids and at least every id |
| Model.Ids | src/main/java/com/karandaev/retrolauncher/model/Emulator.java:63 | the ids of the emulators in list order |
| Model.NextIdIsUnique | src/main/java/com/karandaev/retrolauncher/model/Emulator.java:62-65 | below the wrap-around point the new id is no existing emulator's id |
| Model.AssignFreshId | src/main/java/com/karandaev/retrolauncher/model/Emulator.java:62-77 | after `setUniqueId` the emulator equals no emulator of the list |
| Model.EqualsReflexive | src/main/java/com/karandaev/retrolauncher/model/Emulator.java:69 | `equals` is reflexive |
| Model.EqualsSymmetric | src/main/java/com/karandaev/retrolauncher/model/Emulator.java:67-77 | `equals` is symmetric |
| Model.EqualsTransitive | src/main/java/com/karandaev/retrolauncher/model/Emulator.java:67-77 | `equals` is transitive |
| Model.NotEqualToNull | src/main/java/com/karandaev/retrolauncher/model/Emulator.java:70 | no emulator equals null |
| Model.ConstructedEmulatorsDiffer | src/main/java/com/karandaev/retrolauncher/model/Emulator.java:23-28 | two emulators built from the same arguments are not equal, because each has its own `LaunchParameters` |
| Model.LaunchParameters.constructor | src/main/java/com/karandaev/retrolauncher/model/LaunchParameters.java:7-9 | the argument text starts unset |
| Model.RomFile.constructor | src/main/java/com/karandaev/retrolauncher/model/RomFile.java:32-45 | every field as given |
| Model.UserProfile.constructor | src/main/java/com/karandaev/retrolauncher/model/UserProfile.java:26-32 | the name as given, English, light theme, no emulators or ROMs |
| Config.ConfigManager.constructor | src/main/java/com/karandaev/retrolauncher/utils/ConfigManager.java:19-21 | no profiles, index 0, and so no current profile |
| Config.ConfigManager.CurrentUserProfile | src/main/java/com/karandaev/retrolauncher/utils/ConfigManager.java:76-82 | a profile exactly when the index is within the list, and then the one at the index; null for every other index |
| Config.ConfigManager.SetCurrentUserProfileIndex | src/main/java/com/karandaev/retrolauncher/utils/ConfigManager.java:72-74 | only the index changes, unchecked; an index within the list selects that profile |
| Config.ConfigManager.LoadConfig | src/main/java/com/karandaev/retrolauncher/utils/ConfigManager.java:31-49 | a parsed file replaces both fields; with no file or a failed read nothing changes |
| Config.ConfigManagerInstance.GetInstance | src/main/java/com/karandaev/retrolauncher/utils/ConfigManager.java:23-28 | the first call creates a fresh, empty manager; every later call returns the stored one |
| Config.SameInstance | src/main/java/com/karandaev/retrolauncher/utils/ConfigManager.java:23-28 | two calls return the same manager, which keeps a change made in between |
| Config.StartWithoutConfigFile | src/main/java/com/karandaev/retrolauncher/utils/ConfigManager.java:31-44 | at start-up without a configuration file there are no profiles and no current profile |
| MainController.FilteredRoms | src/main/java/com/karandaev/retrolauncher/controller/MainController.java:160-187 | the shown ROMs are exactly those the predicate accepts, in list order |
| MainController.FilteredRomsCount | src/main/java/com/karandaev/retrolauncher/controller/MainController.java:160-187 | an accepted ROM is shown as often as it occurs in the list, a rejected one never |
| MainController.EmptySearchShowsEverything | src/main/java/com/karandaev/retrolauncher/controller/MainController.java:160-187 | an empty search with no filter option shows the whole list |
| MainController.EmptySearchMatchesAll | src/main/java/com/karandaev/retrolauncher/controller/MainController.java:161-172 | an empty search matches every ROM |
| MainController.OptionsNarrowTheSearch | src/main/java/com/karandaev/retrolauncher/controller/MainController.java:166-183 | each option keeps only ROMs passing the search; other options keep all of them; favourites keeps those flagged |
| MainController.TagOptionsNeedATagMatch | src/main/java/com/karandaev/retrolauncher/controller/MainController.java:177-181 | the console (genre) option keeps a ROM exactly when one of its consoles (genres) contains the search text |
| MainController.CompatibleEmulators | src/main/java/com/karandaev/retrolauncher/controller/MainController.java:270-279 | exactly the emulators sharing a console with the ROM, ignoring case, in profile order |
| MainController.CaseInsensitiveMatch | src/main/java/com/karandaev/retrolauncher/controller/MainController.java:274-278 | an emulator of the profile with a console equal up to case to one of the ROM's is offered |
| MainController.CompatibleEmulatorsCount | src/main/java/com/karandaev/retrolauncher/controller/MainController.java:270-279 | a compatible emulator is offered as often as it occurs in the profile, any other never |
| MainController.NoSharedConsoleNotOffered | src/main/java/com/karandaev/retrolauncher/controller/MainController.java:272-278 | an emulator without a shared console is never offered |
| MainController.ToggleFavorite | src/main/java/com/karandaev/retrolauncher/controller/MainController.java:330-331 | the flag flips and no other field of the ROM changes |
| MainController.ToggleFavoriteTwice | src/main/java/com/karandaev/retrolauncher/controller/MainController.java:330-331 | toggling twice restores the flag |
| AddRomController.TagList | src/main/java/com/karandaev/retrolauncher/controller/AddRomController.java:53-61 | sorted ascending, without duplicates, exactly the non-empty trimmed comma pieces, each a trimmed non-empty comma-free tag |
| AddRomController.DistinctTags | src/main/java/com/karandaev/retrolauncher/controller/AddRomController.java:56-59 | the non-empty trimmed pieces, each once |
| AddRomController.SortBy | src/main/java/com/karandaev/retrolauncher/controller/AddRomController.java:60 | sorted by the key and a permutation of the input |
| AddRomController.SortOfSorted | src/main/java/com/karandaev/retrolauncher/controller/AddRomController.java:60 | sorting a sorted list changes nothing |
| AddRomController.NormalizeIsIdempotent | src/main/java/com/karandaev/retrolauncher/controller/AddRomController.java:53-70 | normalising a normalised field changes nothing |
| AddRomController.TagListOfNormalized | src/main/java/com/karandaev/retrolauncher/controller/AddRomController.java:53-75 | the tags of the normalised text are the tags it was made from |
| AddRomController.SplitNormalized | src/main/java/com/karandaev/retrolauncher/controller/AddRomController.java:53-61 | a non-empty normalised field splits back into exactly its tag list |
| AddRomController.NoTagsNormalizeToEmpty | src/main/java/com/karandaev/retrolauncher/controller/AddRomController.java:53-61 | the field becomes "" exactly when it holds no tag |
| AddRomController.EmptyTextHasNoTags | src/main/java/com/karandaev/retrolauncher/controller/AddRomController.java:56-59 | an empty field has no tags |
| AddRomController.InputErrors | src/main/java/com/karandaev/retrolauncher/controller/AddRomController.java:117-147 | each message is collected exactly when its condition holds; the path-not-found message only for a non-empty path |
| AddRomController.IsInputValid | src/main/java/com/karandaev/retrolauncher/controller/AddRomController.java:117-161 | valid exactly when the name is non-empty and new, the path is non-empty and names a file, and both tag fields are non-empty |
| AddRomController.Save | src/main/java/com/karandaev/retrolauncher/controller/AddRomController.java:50-101 | fields normalised; on valid input exactly one new ROM with the given name, path, flag, tags and no overrides joins the list, which ends sorted by name; otherwise the list is unchanged; no other field of the profile changes |
| AddRomController.AddAndSort | src/main/java/com/karandaev/retrolauncher/controller/AddRomController.java:90-94 | the list gains the ROM, loses nothing, and ends sorted by name; no other field of the profile changes |
| AddRomController.SavedTagsAreTheTagList | src/main/java/com/karandaev/retrolauncher/controller/AddRomController.java:75-76 | the tags stored on the saved ROM are the field's tag list |

## Left out

- The HTTP request and JSON decoding of `getLatestRelease`: its outcome is the input `Fetch`.
- Downloading, unpacking and exiting in `downloadAndUpdate`, the update thread, the alerts and
  the answer dialog of `tryUpdate`: I/O and UI. `TryUpdate` stops at the offer.
- `launchUpdater` starting processes: only the `chmod` target and the updater argument vector
  are modelled; whether starting `chmod` fails is not. Paths are joined with the given separator.
- `Integer.parseInt` on version components: only plain ASCII digit runs are numbers, so signs
  and values beyond 32 bits are not modelled; anything else is the `NotANumber` error.
- The reading of the `VERSION` file: its presence and lines are an input. An `IOException` on
  opening it gives "unknown", like an absent file. A failure while the lines are read
  (reported as an `UncheckedIOException`, which the code does not catch, so `getVersion`
  throws) is not modelled.
- Byte copying in `extractFile`, directory creation and the zip stream APIs. `Unzip` assumes the
  names `ZipFile` lists and the names `ZipInputStream` yields are the same, in the same order.
- `ZipManager.PlaceEntries` is the entry loop of `unzip` split into its own method.
- `ParentPath` models `File.getParent` for normalised Unix paths; `getAbsolutePath` is taken
  as already applied, and Windows drive prefixes are not modelled.
- Starting the emulator process and the launch-failure alert.
- EmulatorSelection.LaunchRomWithEmulator: reads an unset emulator argument text as "", the
  corrected behaviour of the finding below. The code as written passes the word `null`, or
  throws from `replace` when the ROM's text holds `{emu}`; that behaviour is
  `EmulatorSelection.CombineAsWritten`, which the launch method does not use.
- `EmulatorSelection.RomArgsFor`: a ROM override whose `LaunchParameters` text is null is not
  modelled (overrides are always set with a text by the ROM editor); it would throw.
- `Model.Emulator.SetUniqueId`: requires every listed emulator to have an id; a null id makes
  the Java comparator throw, which is not modelled.
- `JavaStrings.ToLower` lower-cases ASCII letters only; locale-dependent and non-ASCII case
  mapping is not modelled.
- `JavaStrings.LessEq` compares characters by their code, which matches Java's UTF-16
  `compareTo` for characters of the Basic Multilingual Plane only.
- `AddRomController.SortBy` is proved sorted and a permutation; the stability of Java's sort
  is not stated.
- `Config.ConfigManager.LoadConfig`: JSON decoding and `saveConfig` are not modelled; the
  decoded index is never null.
- Null names, null tag fields and a null favourite flag are not modelled; text fields are
  strings, possibly empty.
- `ConfigManager.getCurrentUserProfile()` returning null inside `isInputValid` and the save
  handler: the model takes the current profile as given.
- Alerts, windows, localisation (the filter options are the enumeration `FilterOption`), the
  ROM-loading thread and saving the configuration after a change.

## Findings

| source | as written | input that shows it | evidently intended | confidence | as-written member | corrected member |
|---|---|---|---|---|---|---|
| src/main/java/com/karandaev/retrolauncher/controller/EmulatorSelectionController.java:108-111 | an emulator added through the add-emulator form has a `LaunchParameters` whose text was never set; `emulatorArgs + " " + romArgs` then turns the null text into the word `null`, and `replace("{emu}", null)` throws | a new emulator with no arguments, launched on a ROM without an override for it: the argument text is `null  "<path>"`, so `null` is the emulator's first argument; with a `{emu}` override the launch throws | unset arguments read as the empty text, so the emulator receives just the quoted ROM path | not executed | EmulatorSelection.UnsetArgumentsPassNull | EmulatorSelection.UnsetArgumentsReadAsEmpty |
