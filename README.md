# Deck auto-updater: a Dafny model

The plugin watches a note vault. When a markdown file is created or renamed, it writes a
*deck path* into the note's header block under the key `TARGET DECK`. A flashcard-sync
tool then uses that value to file the note's cards. The deck path is derived from the
file's vault-relative path:

1. every `\` becomes `/`;
2. one trailing `.md`, in any letter case, is removed;
3. the result is split on `/` and the empty pieces are dropped;
4. unless the `includeFilename` setting is on, the last segment (the file name) is dropped;
5. the fixed root `obsidian_sync` and the remaining segments are joined with `::`. If no
   segment remains, the result is `obsidian_sync` alone.

The project has three modules:

- `Text` (text.dfy): the JavaScript string operations the derivation uses, written out
  with their exact behaviour. These are `replace` of a single character, `split` on one
  character (`"".split("/")` is `[""]`), `filter(Boolean)` and `join`.
- `Deck` (deck.dfy): the derivation `BuildDeckPath(path, includeFilename)` as a pure
  function, built from one function per step, and the lemmas that state its behaviour.
- `Plugin` (plugin.dfy): the header block as a `Frontmatter` object whose key/value map
  is updated in place, and the plugin object `DeckAutoUpdater` with its settings and its
  create and rename handlers.

## Model

| member | source | states |
|---|---|---|
| `Text.ReplaceChar` | main.ts:38 | the result has the input's length; each character equal to `from` becomes `to` and every other character stays in place |
| `Text.SplitOn` | main.ts:39 | there is at least one piece; no piece contains the separator; every character of a piece occurs in the input |
| `Text.FilterNonEmpty` | main.ts:39 | a string is kept iff it is a non-empty input; there are no more kept strings than inputs |
| `Text.FilterNonEmptyAppend` | main.ts:39 | filtering a concatenation is the concatenation of the filtered halves, so the kept strings stay in input order |
| `Text.FilterNonEmptyKeepsAll` | main.ts:39 | parts that are all non-empty pass unchanged; with the previous row this fixes the exact result |
| `Text.JoinSplitOn` | main.ts:39 | joining the pieces of a split with the separator gives back the original string |
| `Text.SplitOnJoin` | main.ts:39 | splitting the join of separator-free parts gives back exactly those parts |
| `Text.Join` | main.ts:46 | `[]` joins to `""`; otherwise the length is the parts' total length plus one separator per neighbouring pair, and the first part is a prefix; with `JoinSnoc` this fixes the result |
| `Text.JoinSnoc` | main.ts:46 | joining one more part appends the separator and that part |
| `Deck.NormalizeSeparators` | main.ts:38 | the normalised path has the same length and contains no `\` |
| `Deck.StripMdSuffix` | main.ts:38 | the result is a prefix of the input, either all of it or all but three characters; `StripMdSuffixSpec` says which |
| `Deck.StripMdSuffixSpec` | main.ts:38 | the character test agrees with "ends with one of `.md`, `.mD`, `.Md`, `.MD`": such a suffix is removed, and any other string is returned unchanged; the result is always a prefix |
| `Deck.StripMdSuffixOnce` | main.ts:38 | a string followed by any spelling of `.md` strips to exactly that string, so only one suffix is removed |
| `Deck.MdSpellingChars` | main.ts:38 | a three-character string is a spelling of `.md` iff it is `.` then `m`/`M` then `d`/`D` |
| `Deck.NormalizePreservesMdSuffix` | main.ts:38 | a path ends with `.md` exactly when its normalised form does |
| `Deck.SplitPath` | main.ts:39 | every segment is non-empty and contains no `/`; its characters come from the split string |
| `Deck.PathSegments` | main.ts:38-39 | every segment of a path is non-empty and contains neither `/` nor `\`, whatever leading, trailing or doubled separators the path has |
| `Deck.SplitPathIdempotent` | main.ts:38-39 | take the `/`-segments of the normalised path, before the `.md` strip; normalising and splitting their `/`-join again gives the same segments |
| `Deck.LeadingSlashIgnored` | main.ts:39 | a leading `/` leaves the segments unchanged |
| `Deck.TrailingSlashIgnored` | main.ts:39 | a trailing `/` leaves the segments unchanged |
| `Deck.DoubledSlashIgnored` | main.ts:39 | a doubled `/` gives the same segments as a single `/` |
| `Deck.BuildDeckPath` | main.ts:36-47 | the deck always begins with `obsidian_sync` |
| `Deck.DeckShape` | main.ts:45-46 | the deck is the root and the remaining segments joined with `::`; it is exactly `obsidian_sync` iff no segment remains, and otherwise begins with `obsidian_sync::` |
| `Deck.DeckComponents` | main.ts:45-46 | for a path without `:`, splitting the deck on `:` and dropping empty pieces gives the root followed by the remaining segments in order |
| `Deck.DeckSegmentsWellFormed` | main.ts:39-43 | no segment after the root is empty or contains `/` or `\` |
| `Deck.EffectiveParts` | main.ts:41-43 | with the flag on there are k segments after the root, with it off max(0, k-1), where k is the number of path segments; they are always the first segments of the path |
| `Deck.RootLevelFile` | main.ts:41-46 | a path with a single segment and the flag off gives exactly `obsidian_sync` |
| `Deck.IncludeFilenameAppendsLast` | main.ts:41-46 | when k >= 1, the deck with the flag on is the deck with it off, then `::`, then the last segment |
| `Deck.SeparatorInsensitive` | main.ts:38 | two paths that differ only in using `/` or `\` at some positions give the same deck, for either flag value |
| `Deck.MdSuffixIgnoresCase` | main.ts:38 | a path `b` followed by any spelling of `.md` has as its segments the `/`-segments of the normalised `b`, before the `.md` strip (so a `.md` ending `b` itself stays); `Note.MD` and `Note.md` give the same last segment |
| `Deck.NonMdSuffixKept` | main.ts:38 | a path that does not end in `.md` is split unchanged, so an inner `.md` such as `a.md/b` is kept |
| `Deck.SegmentsOfMarkdownPath` | main.ts:38-39 | a markdown path written as separator-free segments joined with `/` has exactly those segments |
| `Deck.FolderSubNote` | main.ts:36-47 | for any separator-free non-empty names, `folder/sub/note.md` gives `obsidian_sync::folder::sub`, or `obsidian_sync::folder::sub::note` with the flag on |
| `Plugin.WithTargetDeck` | main.ts:51-53 | the updated header has the old keys plus `TARGET DECK`; `TARGET DECK` maps to the deck; every other key keeps its value |
| `Plugin.WithTargetDeckOverwrites` | main.ts:51-53 | writing the key twice leaves only the second value |
| `Plugin.DeckAutoUpdater.UpdateDeckFrontmatter` | main.ts:49-54 | the header becomes the old header with `TARGET DECK` set to the deck of the file's path under the current setting; nothing else changes |
| `Plugin.DeckAutoUpdater.OnCreate` | main.ts:19-22 | a created file with extension `md` (`IsMarkdown`) gets its deck written; any other file leaves the header unchanged |
| `Plugin.DeckAutoUpdater.OnRename` | main.ts:27-30 | a renamed file with extension `md` (`IsMarkdown`) gets the deck of its new path; any other file leaves the header unchanged |
| `Plugin.CreateThenRename` | main.ts:19-30 | after a create and then a rename, `TARGET DECK` holds the deck of the new path and every other key is as it was before the create |
| `Plugin.CreateAtRootWithDefaults` | main.ts:7-9 | with the default setting (file name excluded), creating a markdown note at the vault root sets `TARGET DECK` to `obsidian_sync` and leaves every other key alone |

Some behaviours of the code are easy to miss, so they are noted here:

- The handlers test the extension with a case-sensitive `=== 'md'`, but the suffix strip
  is case-insensitive. A file whose extension the host reports as `MD` is never handled.
  Among handled files, the case-insensitive match only changes the outcome for a path
  whose ending the host and the strip read differently.
- Only one suffix is removed: `a.md.md` gives the segment `a.md`.
- The `$` of `/\.md$/i` has no multiline flag, so it matches only at the very end of the
  path. A `.md` followed by a `/` is kept.
- A segment may itself contain `::` or `:`. The deck then no longer identifies its
  segments, which is why `Deck.DeckComponents` requires a path without `:`.

## Left out

- Event registration (`registerEvent`, `vault.on('create' | 'rename')`) and the
  `async`/`await` scheduling are host plumbing. Each handler is modelled as one method
  call on the file and its header.
- CreateThenRename: assumes that the create's header write finishes before the rename's.
  Each handler computes its deck before it awaits `processFrontMatter`, so the two
  writes could finish in either order; the model does not capture the other order.
- The `instanceof TFile` test is a host type test. Only the extension test is modelled.
- `TFile.extension` is computed by the host, whose code is not part of this model. It
  is an independent field of `TFile`, not derived from `path`.
- Loading and saving settings (`loadData`, `saveData`) and the `Object.assign` merge with
  the defaults are host I/O. The `DeckAutoUpdater` constructor takes the settings as
  already loaded; `DefaultSettings` records the default value that applies when nothing is saved.
- The settings tab (its UI and the toggle that assigns `includeFilename`) is UI
  rendering.
- The YAML parsing and writing inside `processFrontMatter` is a call into the host. The
  header is modelled as a `map<string, string>` that the callback updates, so YAML value
  types and key order are not modelled.
- `processFrontMatter` can fail (for instance on a malformed header). A failed call leaves
  the header unchanged, and the handlers do not catch the rejection. `OnCreate`,
  `OnRename` and `UpdateDeckFrontmatter` model only the successful call, in which the
  header is always written.
- JavaScript regular expressions in general are not modelled. Only the two concrete
  uses are: replacing every `\`, and stripping `.md` at the end of the string with the
  letters matched case-insensitively.
- Strings are sequences of characters, which matches JavaScript's UTF-16 code units for
  every character the derivation compares.
