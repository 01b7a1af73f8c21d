# Plugin copy hooks of the starter plugin's Gruntfile

The starter plugin's Gruntfile sets up a Grunt `copy` task
(`plugin_copy_config`) that duplicates the plugin under a new name. Two hooks
run for every copied file:

- `process(content)` rewrites the file's text through a fixed chain of five
  substitutions, then removes guide comments. The chain is: the
  `plugins_url( 'codeandbeauty-starter-plugin/' )` call, `GCourse` → plugin
  name, `gcourse` → plugin slug, `inc/class-codeandbeauty` →
  `inc/class-` + hyphenated slug, `gcourse` → text domain, and finally every
  `/*d: * … * d:*/` block is deleted.
- `rename(dest, src_path)` places the copy under `dest`. The main file
  `codeandbeauty.php` takes the plugin folder's name. Any other path has each
  `codeandbeauty` replaced by the slug with `_` turned into `-`.

The model has three modules:

- `Replace` (replace.dfy) gives JavaScript's `String.prototype.replace` over
  `seq<char>`. With a string pattern it is `ReplaceFirst`, built on
  `IndexOf`. With a global regular expression of plain characters it is
  `ReplaceAll`, a left-to-right scan without overlapping matches.
- `GuideBlocks` (guide_blocks.dfy) gives the guide-comment regular expression
  `/\/\*d: \*[^\*]+\* d:\*\//mg` as a scanner, `StripGuideBlocks`. A guide
  block is the opener `/*d: *`, a non-empty body without `*` (line breaks
  allowed), and the closer `* d:*/`.
- `PluginCopy` (plugin_copy.dfy) holds the four identifiers, the
  hyphenation, the five steps, `Process` and `Rename`.

The identifiers `plugin_name`, `plugin_folder`, `plugin_slug` and
`plugin_domain` are declared in Gruntfile.js but never assigned there. The
model takes them as a parameter (`Identifiers`).

The code's step order has consequences:
- The slug step (line 90) replaces every `gcourse` of its input, wherever it
  stands (proved: `RenameSlugAtEvery`).
- It follows from that, and from `ReplaceAllAtFirst`, that a `gcourse` can
  reach the text-domain step (line 98) only if the replacements produced it.
  The model does not state this in general. It proves one case: a slug that
  itself starts with `gcourse` (`TextDomainHitsCreatedToken`).
- When no `gcourse` reaches line 98, that step is a no-op and `plugin_domain`
  has no effect on the output (`TextDomainStepNoOp`,
  `SlugStepShadowsTextDomain`).

The model follows the code here rather than reading the text-domain step as
the one that renames `gcourse`.

## Model

| member | source | states |
|---|---|---|
| Replace.IndexOf | Gruntfile.js:87 | the index found is the leftmost occurrence of the pattern, and none is found exactly when the pattern does not occur |
| Replace.ReplaceFirst | Gruntfile.js:87 | a string-pattern replace leaves text without the pattern unchanged; otherwise it splices `rep` in place of the leftmost occurrence and keeps the text before and after verbatim |
| Replace.FirstOccurrenceUnique | Gruntfile.js:87 | the leftmost occurrence is unique |
| Replace.ReplaceFirstKeepsLater | Gruntfile.js:87 | an occurrence after the first survives a string-pattern replace, shifted by the change in length: only the first one is replaced |
| Replace.ReplaceAll | Gruntfile.js:89-98 | the `/…/g` replace as a left-to-right scan without overlapping matches; characterised by ReplaceAllNoMatch, ReplaceAllAtFirst, ReplaceAllAround and ReplaceAllLength |
| Replace.ReplaceAllNoMatch | Gruntfile.js:89-98 | a global replace whose pattern does not occur is the identity |
| Replace.ReplaceAllAtFirst | Gruntfile.js:89-98 | the global scan keeps everything before the leftmost occurrence, replaces that occurrence, and resumes right after it |
| Replace.ReplaceAllOnce | Gruntfile.js:89-98 | a text whose leftmost occurrence is followed by no other has exactly that occurrence replaced, with the text before and after kept |
| Replace.NoOverlapFirst | Gruntfile.js:89-98 | a pattern whose first character does not recur in it, placed after text without the pattern, is the leftmost occurrence |
| Replace.NoOverlapGap | Gruntfile.js:89-98 | two occurrences of a pattern whose first character does not recur in it are at least the pattern's length apart |
| Replace.ReplaceAllAround | Gruntfile.js:89-98 | for such a pattern, `x + pat + y` is replaced as the replacement of `x`, then `rep`, then the replacement of `y`, for every `x` and `y`: every occurrence is replaced |
| Replace.ReplaceAllAtEvery | Gruntfile.js:89-98 | the same split at any occurrence index of such a pattern in a text |
| Replace.ReplaceAllLeading | Gruntfile.js:89-98 | a text that starts with the pattern and holds no other occurrence has just the leading one replaced |
| Replace.CountZeroIff | Gruntfile.js:89-98 | the scan finds a match exactly when the pattern occurs |
| Replace.ReplaceAllLength | Gruntfile.js:89-98 | the result is longer than the input by the number of matches times the length difference of `rep` and the pattern |
| Replace.ReplaceAllSelf | Gruntfile.js:89-98 | replacing a pattern by itself changes nothing |
| Replace.ReplaceAllChanges | Gruntfile.js:89-98 | a global replace whose pattern occurs, with a different replacement, changes the text |
| Replace.ReplaceAllUnchangedIff | Gruntfile.js:89-98 | a global replace leaves the text unchanged if and only if the pattern does not occur or is replaced by itself |
| GuideBlocks.StarFreeRun | Gruntfile.js:101 | `[^\*]+` consumes the longest star-free prefix, and the character after it, if any, is `*` |
| GuideBlocks.GuideMatchAt | Gruntfile.js:101 | whatever the matcher accepts at the scan position is a guide block |
| GuideBlocks.GuideMatchComplete | Gruntfile.js:101 | every guide block at the scan position is matched, with exactly its length |
| GuideBlocks.StripGuideBlocks | Gruntfile.js:101 | the guide-comment replace as a scan; never lengthens the text, and is characterised by StripNoOpener, GuideBlockRemoved, StripAllBlocks, MalformedBlockKept and MalformedKeptInContext |
| GuideBlocks.StripNoOpener | Gruntfile.js:101 | text without the opener `/*d: *` is left unchanged |
| GuideBlocks.StripBlockFirst | Gruntfile.js:101 | a guide block at the scan position is removed whole |
| GuideBlocks.StripSkipsText | Gruntfile.js:101 | opener-free text before a `/` is copied unchanged |
| GuideBlocks.StripSegment | Gruntfile.js:101 | opener-free text followed by a guide block keeps the text, drops the block and resumes after it |
| GuideBlocks.GuideBlockRemoved | Gruntfile.js:101 | one guide block between opener-free texts is removed, and the texts around it are kept in order |
| GuideBlocks.StripAllBlocks | Gruntfile.js:101 | with any number of guide blocks interleaved with opener-free text, every block is removed and all the text between them is kept, in order |
| GuideBlocks.BlockOf | Gruntfile.js:101 | opener, any non-empty star-free body (line breaks included) and closer form a guide block |
| GuideBlocks.MultiLineBlockRemoved | Gruntfile.js:101 | a guide block whose body spans two lines is removed (the `[^\*]` class matches line breaks) |
| GuideBlocks.MalformedNoMatch | Gruntfile.js:101 | a would-be block whose body is empty, or holds a `*` and no `/`, is not matched at its opener |
| GuideBlocks.MalformedNoLaterOpener | Gruntfile.js:101 | a would-be block whose body has no `/` holds no opener past its first character |
| GuideBlocks.MalformedBlockKept | Gruntfile.js:101 | a would-be block standing alone, whose body is empty or holds a `*` and no `/`, stays in the output unchanged |
| GuideBlocks.MalformedKeptInContext | Gruntfile.js:101 | such a would-be block after opener-free text is kept up to its final `/`, and the scan resumes at that `/` with the text after it |
| GuideBlocks.MalformedKeptBetween | Gruntfile.js:101 | such a would-be block after opener-free text, followed by text that cannot complete an opener together with the block's final `/`, stays in the output unchanged |
| GuideBlocks.GuideMatchAtExtend | Gruntfile.js:101 | once a `*` stands where a closer would start, appending text does not change whether a guide block matches at the front |
| PluginCopy.HyphenateChars | Gruntfile.js:93 | the global `_` → `-` replace keeps the length and maps each character: `_` to `-`, all others to themselves |
| PluginCopy.Hyphenate | Gruntfile.js:93 | the hyphenated slug has the slug's length, each `_` turned into `-`, every other character kept, and no `_` left |
| PluginCopy.HyphenateExample | Gruntfile.js:110 | `my_plugin` becomes `my-plugin` |
| PluginCopy.HyphenateWithoutUnderscore | Gruntfile.js:93 | a slug without `_` is its own hyphenated form |
| PluginCopy.PluginsUrl | Gruntfile.js:87 | the replacement text `plugins_url( '<folder>/' )`; used by ProcessPluginsUrlLine and ProcessPluginsUrlExample |
| PluginCopy.RewritePluginsUrl | Gruntfile.js:87 | the first-occurrence replace of the `plugins_url(...)` call; characterised by ReplaceFirst's contract and ProcessPluginsUrlLine |
| PluginCopy.RenameDisplayName | Gruntfile.js:89 | every `GCourse` becomes the plugin name; characterised by ReplaceAll's lemmas and LeftoverPlaceholder |
| PluginCopy.RenameSlug | Gruntfile.js:90 | every `gcourse` becomes the plugin slug; characterised by RenameSlugAtEvery and BareTokenBeforeTextDomain |
| PluginCopy.RewriteIncludePaths | Gruntfile.js:93-95 | every `inc/class-codeandbeauty` becomes `inc/class-` plus the hyphenated slug; characterised by ReplaceAll's lemmas and Hyphenate |
| PluginCopy.RenameTextDomain | Gruntfile.js:98 | every remaining `gcourse` becomes the text domain; characterised by RenameTextDomainOnce and TextDomainStepNoOp |
| PluginCopy.BeforeTextDomain | Gruntfile.js:87-95 | the first four steps in source order; characterised by BareTokenBeforeTextDomain |
| PluginCopy.Process | Gruntfile.js:83-104 | the `process` hook: the five steps in source order, then the guide-comment removal; characterised by ProcessWithoutPatterns, ProcessPluginsUrlLine, the order lemmas and LeftoverPlaceholder |
| PluginCopy.Rename | Gruntfile.js:106-115 | the `rename` hook; characterised by RenameMainFile, RenameOtherFile, RenameWithoutToken and RenameSingleToken |
| PluginCopy.SlugTokenHeadOnce | Gruntfile.js:90 | `gcourse` cannot overlap itself, since its `g` does not recur |
| PluginCopy.RenameSlugAtEvery | Gruntfile.js:90 | the slug step replaces every `gcourse` of its input: around any occurrence, the result is the step on the text before it, the slug, and the step on the text after it |
| PluginCopy.ProcessWithoutPatterns | Gruntfile.js:83-104 | content holding none of the five patterns and no guide opener is returned unchanged |
| PluginCopy.ProcessPluginsUrlLine | Gruntfile.js:87-101 | the `plugins_url( 'codeandbeauty-starter-plugin/' )` call becomes the call for the new folder, as long as the new call gives the later steps nothing to match |
| PluginCopy.ProcessPluginsUrlExample | Gruntfile.js:87 | with folder `acme-plugin` the call becomes `plugins_url( 'acme-plugin/' )`, whatever the other identifiers are |
| PluginCopy.LacksPatterns | Gruntfile.js:89-101 | text missing one character of each later pattern holds none of them |
| PluginCopy.TextDomainStepNoOp | Gruntfile.js:90-98 | when the earlier steps leave no `gcourse`, the text-domain step is a no-op and the output does not depend on the text domain |
| PluginCopy.BareTokenBeforeTextDomain | Gruntfile.js:87-95 | up to the text-domain step, a bare `gcourse` becomes the slug, when the slug holds no `inc/class-codeandbeauty` |
| PluginCopy.SlugStepShadowsTextDomain | Gruntfile.js:90-98 | a bare `gcourse` ends up as the slug, not the text domain, when the slug holds no `gcourse`, include path or opener |
| PluginCopy.SlugStepShadowsTextDomainExample | Gruntfile.js:90-98 | with slug `acme_plugin`, `gcourse` is processed to `acme_plugin` |
| PluginCopy.TextDomainHitsCreatedToken | Gruntfile.js:90-98 | with a slug of the form `gcourse` + suffix, a bare `gcourse` ends up as the text domain followed by the suffix, when the slug holds no `inc/class-codeandbeauty`, the suffix no `gcourse`, and domain + suffix no opener `/*d: *` |
| PluginCopy.LeftoverPlaceholder | Gruntfile.js:83-104 | the output can still hold a placeholder: with plugin name `GCours`, `GCoursee` comes out as `GCourse`, whatever the other identifiers are |
| PluginCopy.RenameTextDomainOnce | Gruntfile.js:98 | a text of `gcourse` followed by a suffix without `gcourse` becomes the text domain followed by that suffix |
| PluginCopy.RenameMainFile | Gruntfile.js:106-115 | `codeandbeauty.php` is copied to `dest/<plugin folder>.php` |
| PluginCopy.RenameOtherFile | Gruntfile.js:106-115 | any other path keeps the part before its first `codeandbeauty`, replaces that occurrence with the hyphenated slug, and goes on scanning after it; the result sits under `dest/` |
| PluginCopy.RenameWithoutToken | Gruntfile.js:106-115 | a path without `codeandbeauty` is only placed under `dest/` |
| PluginCopy.RenameSingleToken | Gruntfile.js:106-115 | a path other than the main file with one `codeandbeauty` gets the hyphenated slug in its place and nothing else changes |
| PluginCopy.RenameIncludedClassFile | Gruntfile.js:106-115 | `inc/class-codeandbeauty.php` goes to `dest/inc/class-<hyphenated slug>.php` |

## Left out

- The rest of Gruntfile.js is not part of this model. That covers loading `time-grunt` and the task plugins (lines 15-18), the build time, `package.json` and banner (lines 22, 57-63), the copy task's file globs and flags (lines 65-81), and the configuration and registration of the other tasks (lines 119 onwards). They are configuration data and calls into Grunt, not logic of the hooks.
- JavaScript replacement patterns (`$&`, `$1`, `$$` and the like) are not interpreted: replacement texts are inserted literally. An identifier that contains `$` would be expanded by JavaScript but is kept verbatim by the model.
- The four identifiers are never assigned in Gruntfile.js, so they are `undefined` when the hooks run. Then `plugin_slug.replace(/_/g, '-')` (lines 93 and 110) throws a `TypeError`: `process` fails on every file, and `rename` fails on every path except `codeandbeauty.php`. Only lines 87-90 and 108 would insert the text `undefined`. The model takes the identifiers as arbitrary strings, so it describes the hooks once the identifiers are set, and does not model the failure.
- Replace.ReplaceAll requires a non-empty pattern. Every global pattern in the hooks is a fixed non-empty text, so the empty-pattern behaviour of JavaScript (a match at every position) is not modelled.
- No absence of leftover placeholders is proved, because it does not hold: a replacement can complete a token with the text after it, and no later step looks for that token again. `PluginCopy.LeftoverPlaceholder` shows `GCoursee` coming out as `GCourse` when the plugin name is `GCours`.
- Grunt's own file handling (reading, writing, `noEmpty`) and the I/O around the hooks are not modelled: each hook is a function from strings to a string.
