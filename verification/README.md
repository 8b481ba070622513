# VersionPress: shell-argument escaping and composer.lock change detection

This project models two independent pieces of VersionPress in Dafny.

- **ProcessUtils** escapes a shell argument for a target OS. It uses Drush's two schemes.
  - Linux: single-quote wrapping, with each `'` written as `'\''` and five control characters blanked.
  - Windows: double-quote wrapping, with `\`, `"` and `%` doubled.
- **ProcessUtils `getOutput`** picks between a finished process's error output and its standard output.
- **VPComposerCommand** (the `vp-composer commit-composer-changes` command) does three things:
  - It reads the package map of a decoded composer.lock.
  - It classifies the differences between the current and the previous lockfile as installed, removed or updated.
  - It maps those buckets to plugin change infos.

Modules:

- `PhpValues` (php_values.dfy): PHP `null` as `Option`, and PHP truthiness of strings (`""` and `"0"` are falsy).
- `TextPasses` (text_passes.dfy): single-character replacement passes, as `preg_replace`/`str_replace` perform them. It proves the general fact that a sequence of passes equals one per-character map when no pass reintroduces a character that a later pass rewrites.
- `ShellWords` (shell_words.dfy): the readers used as inverses of the escapers.
  - `ReadQuotedWord`: how a POSIX shell reads single-quoted spans and backslash escapes (sections 2.2.1 and 2.2.2 of the POSIX Shell Command Language).
  - `UnquoteDoubled`: undoes the Windows doubling.
- `ProcessUtils` (process_utils.dfy): the escapers, the dispatcher and `getOutput`.
- `VpComposer` (vp_composer.dfy): the package map, `detectChanges` and the change-info mapping.

Details of the code that the model keeps:

- The OS argument of `escapeshellarg` is a string or null. `null`, `""` and `"0"` are all falsy in PHP, so each of them selects the native escaping.
- `getOutput` falls back to standard output whenever the error output is falsy, and that includes an error output of `"0"`.
- `updated` carries the package records of the *previous* snapshot, because it filters `array_intersect_key($previousPackages, $currentPackages)`.
- The version test of `updated` looks up the current package by the previous record's `name`, not by its key. A name missing from the current map reads as null, so it counts as changed. On maps built by `getPackagesFromLockFile` the name and the key coincide (`KeyedByName`), so the lemmas state the plain "versions differ" property under that precondition.
- Each bucket is mapped to a change info or null per package, and `array_merge` keeps the nulls in the merged array.

## Model

| member | source | states |
|---|---|---|
| ProcessUtils.EscapeLinux | plugins/versionpress/src/Utils/ProcessUtils.php:60-79 | the result is `'` + the per-character Linux map of the argument + `'`, though the code computes it as sequential replace passes |
| ProcessUtils.LinuxPassesAreOneMap | plugins/versionpress/src/Utils/ProcessUtils.php:65-73 | the quote pass followed by the five blanking passes of `str_replace` equals one per-character map: `'` to `'\''`, tab/LF/CR/NUL/VT to space, all else unchanged |
| ProcessUtils.LinuxInteriorLength | plugins/versionpress/src/Utils/ProcessUtils.php:65-73 | the per-character Linux map grows the argument by exactly three characters per single quote |
| ProcessUtils.LinuxLength | plugins/versionpress/src/Utils/ProcessUtils.php:65-76 | output length is the argument length plus three per single quote plus two |
| ProcessUtils.LinuxInteriorHasNoBlanked | plugins/versionpress/src/Utils/ProcessUtils.php:73 | the per-character Linux map of any argument contains none of tab, LF, CR, NUL or vertical tab |
| ProcessUtils.LinuxHasNoControlChars | plugins/versionpress/src/Utils/ProcessUtils.php:73 | no tab, LF, CR, NUL or vertical tab occurs anywhere in the output |
| ProcessUtils.LinuxReadBackInterior | plugins/versionpress/src/Utils/ProcessUtils.php:61-76 | inside an open single quote, the shell reads the mapped argument plus the closing quote as the argument with control characters blanked |
| ProcessUtils.LinuxShellReadsBack | plugins/versionpress/src/Utils/ProcessUtils.php:60-79 | a POSIX shell reads the output back as one word: the argument with the blanked control characters as spaces |
| ProcessUtils.LinuxShellReadsBackExactly | plugins/versionpress/src/Utils/ProcessUtils.php:60-79 | an argument without those control characters is read back unchanged |
| ProcessUtils.EscapeWindows | plugins/versionpress/src/Utils/ProcessUtils.php:88-102 | the result is `"` + the per-character Windows map of the argument + `"`, though the code computes it as three sequential passes |
| ProcessUtils.WindowsPassesAreOneMap | plugins/versionpress/src/Utils/ProcessUtils.php:89-96 | the backslash, double-quote and percent passes, in source order, equal one per-character doubling map |
| ProcessUtils.WindowsInteriorLength | plugins/versionpress/src/Utils/ProcessUtils.php:89-96 | the per-character Windows map grows the argument by one character per backslash, double quote and percent |
| ProcessUtils.WindowsLength | plugins/versionpress/src/Utils/ProcessUtils.php:90-99 | output length is the argument length plus one per backslash, double quote and percent, plus two |
| ProcessUtils.WindowsSpecialsDoubled | plugins/versionpress/src/Utils/ProcessUtils.php:95-96 | inside the outer quotes every `%` (and every `\` and `"`) comes in adjacent non-overlapping pairs, so no lone `%` is left |
| ProcessUtils.WindowsUndoubleInterior | plugins/versionpress/src/Utils/ProcessUtils.php:89-96 | undoing the doubling on the per-character Windows map gives back the argument |
| ProcessUtils.WindowsRoundTrip | plugins/versionpress/src/Utils/ProcessUtils.php:88-102 | undoing the doubling inside the outer quotes gives back the argument, so the escaping loses nothing |
| TextPasses.PassesOnChar | plugins/versionpress/src/Utils/ProcessUtils.php:89-96 | when no pass reintroduces a later pass's needle, the passes turn a character into what its first matching rule says |
| ProcessUtils.EscapeShellArg | plugins/versionpress/src/Utils/ProcessUtils.php:18-30 | a null, `""` or `"0"` OS defers to the native escaping; `"windows"` selects the Windows scheme; any other string selects the Linux scheme |
| ProcessUtils.DispatchQuoteStyle | plugins/versionpress/src/Utils/ProcessUtils.php:20-28 | for a truthy OS the result starts and ends with the same quote: double quotes exactly for `"windows"`, single quotes otherwise |
| ProcessUtils.GetOutput | plugins/versionpress/src/Utils/ProcessUtils.php:43-51 | a truthy error output is returned; a falsy one (`""` or `"0"`) gives the standard output instead; the result is falsy exactly when both streams are falsy |
| ProcessUtils.EscapeEmptyExamples | plugins/versionpress/src/Utils/ProcessUtils.php:60-102 | the empty argument escapes to `''` on Linux and `""` on Windows |
| ProcessUtils.EscapeQuoteExample | plugins/versionpress/src/Utils/ProcessUtils.php:65 | `it's` escapes on Linux to `'it'\''s'` |
| ProcessUtils.EscapeTabExample | plugins/versionpress/src/Utils/ProcessUtils.php:73 | `a<tab>b` escapes on Linux to `'a b'`: the tab becomes a single space |
| ProcessUtils.EscapePercentExample | plugins/versionpress/src/Utils/ProcessUtils.php:95-99 | `100%` escapes on Windows to `"100%%"` |
| ProcessUtils.GetOutputExamples | plugins/versionpress/src/Utils/ProcessUtils.php:45-50 | `("out","")` gives `out`, `("out","err")` gives `err`, `("","")` gives the empty string, an error output of `"0"` falls back to standard output, and `("0","")` gives `0` |
| VpComposer.KeptRecord | plugins/versionpress/src/Cli/vp-composer.php:107-113 | name, version and type are copied; the homepage becomes null exactly when it is missing, null, `""` or `"0"`, and is kept otherwise |
| VpComposer.PackagesFromLockFile | plugins/versionpress/src/Cli/vp-composer.php:102-116 | the keys are exactly the entries' names; every package is filed under its own name; a name that occurs more than once keeps the record of its last entry |
| VpComposer.DetectChanges | plugins/versionpress/src/Cli/vp-composer.php:85-98 | installed has keys current minus previous, with current values; removed has keys previous minus current, with previous values; updated has keys within both, with previous values |
| VpComposer.UpdatedIffVersionsDiffer | plugins/versionpress/src/Cli/vp-composer.php:88-93 | on maps keyed by name, a key of both snapshots is updated exactly when its two version strings differ |
| VpComposer.ChangeSetPartition | plugins/versionpress/src/Cli/vp-composer.php:85-98 | installed, removed, updated and the unchanged common keys are pairwise disjoint (all six pairs), and together they cover the union of both snapshots' keys |
| VpComposer.ChangeSetRebuildsKeys | plugins/versionpress/src/Cli/vp-composer.php:85-86 | the previous keys minus the removed ones, plus the installed ones, are the current keys |
| VpComposer.SelfDiffIsEmpty | plugins/versionpress/src/Cli/vp-composer.php:85-93 | diffing a snapshot against itself gives three empty buckets |
| VpComposer.DetectChangesOfLockFiles | plugins/versionpress/src/Cli/vp-composer.php:82-98 | from the two entry lists: installed and removed are the name-set differences; a name in both is updated exactly when its last entries' versions differ |
| VpComposer.PluginChange | plugins/versionpress/src/Cli/vp-composer.php:44-67 | a change info exists exactly for type `wordpress-plugin`; it carries the bucket's action and the package name as both plugin file and plugin name |
| VpComposer.BucketChanges | plugins/versionpress/src/Cli/vp-composer.php:44-67 | the mapped bucket keeps the bucket's keys, with each package's change info or null |
| VpComposer.ChangeInfos | plugins/versionpress/src/Cli/vp-composer.php:43-68 | the merged array has the keys of all three buckets; on a key shared by several buckets the later bucket's change info wins (updated over removed over installed) |
| VpComposer.ChangeInfosOfDiff | plugins/versionpress/src/Cli/vp-composer.php:43-68 | the merge loses no entry: every package of every bucket has its own change info, with install, delete or update according to its bucket |
| VpComposer.ChangeInfosNamePlugins | plugins/versionpress/src/Cli/vp-composer.php:44-67 | on maps keyed by name, every present change info names the package it is filed under |
| VpComposer.ScenarioInstallAndRemove | plugins/versionpress/src/Cli/vp-composer.php:85-93 | `{A@1.0, B@2.0}` against `{A@1.0, C@1.0}` gives installed `{B}`, removed `{C}` and no updates |
| VpComposer.ScenarioUpdate | plugins/versionpress/src/Cli/vp-composer.php:85-93 | `{A@2.0}` against `{A@1.0}` gives only A as updated, carrying version 1.0 |

## Left out

- PHP's native `escapeshellarg`, used for a falsy OS, depends on the host. It is a parameter `native` of `EscapeShellArg`.
- PHP strings are byte strings; the model uses `seq<char>`. Every character the escapers touch is ASCII, so for UTF-8 input the byte view and the character view agree.
- The Symfony `Process` object: `GetOutput` takes the two captured streams as strings.
- `json_decode` of the lockfile text, and the fatal error on a missing `packages` key, are not modelled. The input is the already decoded `packages` list.
- Reading `composer.lock` from disk and running `git show HEAD:composer.lock` are I/O and an external tool.
- Entries missing `name`, `version` or `type` are not modelled: every entry has all three as strings. In PHP such an entry raises notices, and `array_column` skips an entry without `name`, so `array_combine` then fails.
- VpComposer.KeptRecord: models a homepage that is missing, null or a string only. Other JSON values (`false`, `0`, arrays) are not represented.
- Package names that look like integers would become integer array keys, which `array_merge` renumbers. This is not modelled; Composer package names always contain a vendor slash.
- The order of entries in the result arrays is not modelled: the buckets are maps.
- The `WP_CLI` command registration, the `VersionPress::isActive` guard and its error, and the container lookup of the committer are framework glue. So is the final `var_dump`.
